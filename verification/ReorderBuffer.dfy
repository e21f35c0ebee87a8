/** The subscription callback reorder buffer: what one callback does to one subscription. */
module ReorderBuffer {
  import opened Options

  type Data = string

  datatype Callback = Callback(sequence: int, data: Data, receivedAt: real)

  /** A call of the handler. */
  datatype Delivery = Diff(sequence: int, data: Data) | Full(sequence: int, data: Data)

  datatype Event = DiffCallback(sequence: int, data: Data, now: real) | ResyncCallback(sequence: int, data: Data)

  datatype Result = Processed | Duplicate | Pending | ResyncTriggered | Rejected

  datatype Config = Config(gapTimeout: real, maxPending: int, maxRetries: int)

  /** The subscription record's sequence (absent when there is no such subscription), the
      processor's own state and queue, and the handler calls made so far. */
  datatype State = State(last: Option<int>, version: int, resyncPending: bool, pending: seq<Callback>, delivered: seq<Delivery>)

  // ---- queues ----

  /** The callbacks of `s` with number `q`, in the order of `s`. */
  function Only(s: seq<Callback>, q: int): seq<Callback> {
    OnlyTo(s, q, |s|)
  }

  function OnlyTo(s: seq<Callback>, q: int, n: nat): seq<Callback>
    requires n <= |s|
  {
    if n == 0 then [] else if s[n - 1].sequence == q then OnlyTo(s, q, n - 1) + [s[n - 1]] else OnlyTo(s, q, n - 1)
  }

  /** `[c for c in s if c.sequence != q]`. */
  function Without(s: seq<Callback>, q: int): seq<Callback> {
    WithoutTo(s, q, |s|)
  }

  function WithoutTo(s: seq<Callback>, q: int, n: nat): seq<Callback>
    requires n <= |s|
  {
    if n == 0 then [] else if s[n - 1].sequence != q then WithoutTo(s, q, n - 1) + [s[n - 1]] else WithoutTo(s, q, n - 1)
  }

  ghost predicate Ordered(s: seq<Callback>) {
    forall i, j :: 0 <= i < j < |s| ==> s[i].sequence <= s[j].sequence
  }

  /** `c` placed behind every callback whose number is not greater. */
  function Placed(s: seq<Callback>, c: Callback): seq<Callback> {
    if s == [] || s[|s| - 1].sequence <= c.sequence then s + [c]
    else Placed(s[..|s| - 1], c) + [s[|s| - 1]]
  }

  /** `list.sort(key=sequence)`. */
  function StableSort(s: seq<Callback>): seq<Callback> {
    if s == [] then [] else Placed(StableSort(s[..|s| - 1]), s[|s| - 1])
  }

  lemma {:induction false} OnlyPrefix(s: seq<Callback>, t: seq<Callback>, q: int, n: nat)
    requires n <= |s| && n <= |t| && s[..n] == t[..n]
    ensures OnlyTo(s, q, n) == OnlyTo(t, q, n)
  {
    if n > 0 {
      assert s[n - 1] == s[..n][n - 1] && t[n - 1] == t[..n][n - 1];
      assert s[..n - 1] == s[..n][..n - 1] && t[..n - 1] == t[..n][..n - 1];
      OnlyPrefix(s, t, q, n - 1);
    }
  }

  lemma OnlySnoc(s: seq<Callback>, c: Callback, q: int)
    ensures Only(s + [c], q) == if c.sequence == q then Only(s, q) + [c] else Only(s, q)
  {
    OnlyPrefix(s + [c], s, q, |s|);
  }

  lemma OnlySplit(s: seq<Callback>, q: int)
    requires s != []
    ensures Only(s, q) == if s[|s| - 1].sequence == q then Only(s[..|s| - 1], q) + [s[|s| - 1]] else Only(s[..|s| - 1], q)
  {
    OnlySnoc(s[..|s| - 1], s[|s| - 1], q);
    assert s == s[..|s| - 1] + [s[|s| - 1]];
  }

  lemma {:induction false} OnlyToAbsent(s: seq<Callback>, q: int, n: nat)
    requires n <= |s|
    ensures OnlyTo(s, q, n) == [] <==> forall i :: 0 <= i < n ==> s[i].sequence != q
  {
    if n > 0 {
      OnlyToAbsent(s, q, n - 1);
    }
  }

  lemma {:induction false} OnlyToWithout(s: seq<Callback>, q: int, k: int, n: nat)
    requires n <= |s|
    ensures Only(WithoutTo(s, q, n), k) == if k == q then [] else OnlyTo(s, k, n)
    ensures |WithoutTo(s, q, n)| + |OnlyTo(s, q, n)| == n
  {
    if n > 0 {
      var c := s[n - 1];
      OnlyToWithout(s, q, k, n - 1);
      if c.sequence != q {
        OnlySnoc(WithoutTo(s, q, n - 1), c, k);
      } else {
        assert WithoutTo(s, q, n) == WithoutTo(s, q, n - 1);
      }
    }
  }

  lemma OnlyWithout(s: seq<Callback>, q: int, k: int)
    ensures Only(Without(s, q), k) == if k == q then [] else Only(s, k)
    ensures |Without(s, q)| + |Only(s, q)| == |s|
  {
    OnlyToWithout(s, q, k, |s|);
  }

  lemma {:induction false} WithoutToOrdered(s: seq<Callback>, q: int, n: nat)
    requires Ordered(s) && n <= |s|
    ensures Ordered(WithoutTo(s, q, n))
    ensures forall c :: c in WithoutTo(s, q, n) ==> exists i :: 0 <= i < n && c == s[i]
  {
    if n > 0 {
      WithoutToOrdered(s, q, n - 1);
      assert forall c :: c in WithoutTo(s, q, n - 1) ==> c.sequence <= s[n - 1].sequence;
    }
  }

  lemma {:induction false} PlacedIs(s: seq<Callback>, c: Callback)
    requires Ordered(s)
    ensures Ordered(Placed(s, c)) && |Placed(s, c)| == |s| + 1
    ensures forall x :: x in Placed(s, c) ==> x == c || x in s
  {
    if s != [] && s[|s| - 1].sequence > c.sequence {
      PlacedIs(s[..|s| - 1], c);
      assert forall x :: x in Placed(s[..|s| - 1], c) ==> x.sequence <= s[|s| - 1].sequence;
    }
  }

  lemma {:induction false} OnlyPlaced(s: seq<Callback>, c: Callback, q: int)
    ensures Only(Placed(s, c), q) == if c.sequence == q then Only(s, q) + [c] else Only(s, q)
  {
    if s == [] || s[|s| - 1].sequence <= c.sequence {
      OnlySnoc(s, c, q);
    } else {
      OnlySplit(s, q);
      OnlyPlaced(s[..|s| - 1], c, q);
      OnlySnoc(Placed(s[..|s| - 1], c), s[|s| - 1], q);
    }
  }

  /** The sort orders the queue by number, loses nothing, and keeps arrival order among equals. */
  lemma {:induction false} SortIsStable(s: seq<Callback>)
    ensures Ordered(StableSort(s)) && |StableSort(s)| == |s|
    ensures forall q :: Only(StableSort(s), q) == Only(s, q)
  {
    if s != [] {
      var rest := s[..|s| - 1];
      SortIsStable(rest);
      PlacedIs(StableSort(rest), s[|s| - 1]);
      forall q
        ensures Only(StableSort(s), q) == Only(s, q)
      {
        OnlyPlaced(StableSort(rest), s[|s| - 1], q);
        OnlySplit(s, q);
      }
    }
  }

  /** The queue without the `n` numbers from `from` on. */
  function WithoutRun(s: seq<Callback>, from: int, n: nat): seq<Callback> {
    if n == 0 then s else Without(WithoutRun(s, from, n - 1), from + n - 1)
  }

  lemma {:induction false} OnlyWithoutRun(s: seq<Callback>, from: int, n: nat, k: int)
    ensures Only(WithoutRun(s, from, n), k) == (if from <= k < from + n then [] else Only(s, k))
  {
    if n > 0 {
      var t, q := WithoutRun(s, from, n - 1), from + n - 1;
      var left := Without(t, q);
      OnlyWithoutRun(s, from, n - 1, k);
      OnlyWithout(t, q, k);
      assert WithoutRun(s, from, n) == left;
      if k == q {
        assert Only(left, k) == [];
      } else {
        assert Only(left, k) == Only(t, k);
      }
    }
  }

  lemma {:induction false} WithoutRunOrdered(s: seq<Callback>, from: int, n: nat)
    requires Ordered(s)
    ensures Ordered(WithoutRun(s, from, n))
  {
    if n > 0 {
      WithoutRunOrdered(s, from, n - 1);
      var t := WithoutRun(s, from, n - 1);
      WithoutToOrdered(t, from + n - 1, |t|);
    }
  }

  // ---- one callback ----

  function LastOf(s: State): int {
    if s.last.Some? then s.last.value else 0
  }

  /** The sequence is stored only if there is a subscription record to store it in. */
  function Advanced(last: Option<int>, to: int): Option<int> {
    if last.Some? then Some(to) else None
  }

  ghost predicate TimedOut(c: Config, pending: seq<Callback>, now: real) {
    exists i :: 0 <= i < |pending| && now - pending[i].receivedAt > c.gapTimeout
  }

  /** `d` delivers its number with the data of that number's first callback in the queue. */
  ghost predicate IsFirst(s: seq<Callback>, d: Delivery) {
    d.Diff? && Only(s, d.sequence) != [] && d.data == Only(s, d.sequence)[0].data
  }

  ghost predicate AreFirsts(s: seq<Callback>, h: seq<Delivery>) {
    forall i :: 0 <= i < |h| ==> IsFirst(s, h[i])
  }

  /** The numbers from `from` on, one each, in order. */
  ghost predicate Consecutive(h: seq<Delivery>, from: int) {
    forall i :: 0 <= i < |h| ==> h[i].sequence == from + i
  }

  /** `h` delivers the numbers from `from` up to but excluding `next`, as far as the queue goes
      without a gap. */
  ghost predicate DeliversRun(s: seq<Callback>, from: int, h: seq<Delivery>, next: int) {
    Consecutive(h, from) && AreFirsts(s, h) && next == from + |h| && Only(s, next) == []
  }

  /** What a callback may do: the states before and after, and the answer. */
  ghost predicate Receives(c: Config, s: State, e: Event, s': State, r: Result) {
    match e
    case ResyncCallback(sequence, data) =>
      r == Processed && s' == State(Advanced(s.last, sequence), 1, false, [], s.delivered + [Full(sequence, data)])
    case DiffCallback(sequence, data, now) =>
      if c.maxRetries <= 0 then r == Rejected && s' == s
      else if sequence <= LastOf(s) then r == Duplicate && s' == s
      else if sequence > LastOf(s) + 1 then
        if TimedOut(c, s.pending, now) then
          r == ResyncTriggered && s' == State(Advanced(s.last, 0), s.version + 1, true, [], s.delivered)
        else if |s.pending| >= c.maxPending then r == Rejected && s' == s
        else
          r == Pending && s' == s.(pending := StableSort(s.pending + [Callback(sequence, data, now)]))
      else
        r == Processed && InOrder(s, sequence, data, s')
  }

  ghost predicate InOrder(s: State, sequence: int, data: Data, s': State) {
    exists more :: InOrderRun(s, sequence, data, s', more)
  }

  /** The callback and the run of queued ones behind it are delivered and leave the queue. */
  ghost predicate InOrderRun(s: State, sequence: int, data: Data, s': State, more: seq<Delivery>) {
    && DeliversRun(s.pending, sequence + 1, more, sequence + 1 + |more|)
    && s' == State(Advanced(s.last, sequence + |more|), s.version + 1, false, WithoutRun(s.pending, sequence + 1, |more|),
                   s.delivered + ([Diff(sequence, data)] + more))
  }

  // ---- the processor ----

  class CallbackProcessor {
    const config: Config
    var last: Option<int>
    var version: int
    var resyncPending: bool
    var pending: seq<Callback>
    var delivered: seq<Delivery>

    constructor (config: Config, last: Option<int>)
      ensures this.config == config
      ensures Snapshot() == State(last, 0, false, [], [])
    {
      this.config, this.last := config, last;
      version, resyncPending, pending, delivered := 0, false, [], [];
    }

    ghost function Snapshot(): State
      reads this
    {
      State(last, version, resyncPending, pending, delivered)
    }

    method GetLastSeq() returns (seqnr: int)
      ensures seqnr == LastOf(Snapshot())
    {
      seqnr := if last.Some? then last.value else 0;
    }

    method UpdateLastSeq(to: int)
      modifies this`last
      ensures last == Advanced(old(last), to)
    {
      if last.Some? {
        last := Some(to);
      }
    }

    method SetState(resync: bool, stateVersion: int, expected: Option<int>) returns (ok: bool)
      modifies this`version, this`resyncPending
      ensures ok == (expected == None || expected == Some(old(version)))
      ensures version == (if ok then stateVersion + 1 else old(version))
      ensures resyncPending == (if ok then resync else old(resyncPending))
    {
      if expected.Some? && expected.value != version {
        return false;
      }
      version, resyncPending := stateVersion + 1, resync;
      return true;
    }

    method AddPending(callback: Callback) returns (ok: bool)
      modifies this`pending
      ensures ok == (|old(pending)| < config.maxPending)
      ensures pending == if ok then StableSort(old(pending) + [callback]) else old(pending)
    {
      if |pending| >= config.maxPending {
        return false;
      }
      pending := StableSort(pending + [callback]);
      return true;
    }

    method CheckGapTimeout(now: real) returns (late: bool)
      ensures late == TimedOut(config, pending, now)
    {
      if pending == [] {
        return false;
      }
      var oldest := pending[0].receivedAt;
      var i := 1;
      while i < |pending|
        invariant 1 <= i <= |pending|
        invariant exists j :: 0 <= j < i && pending[j].receivedAt == oldest
        invariant forall j :: 0 <= j < i ==> oldest <= pending[j].receivedAt
      {
        if pending[i].receivedAt < oldest {
          oldest := pending[i].receivedAt;
        }
        i := i + 1;
      }
      late := now - oldest > config.gapTimeout;
    }

    /** `next((c for c in pending if c.sequence == q), None)`. */
    method FirstPending(q: int) returns (r: Option<Callback>)
      ensures r == if Only(pending, q) == [] then None else Some(Only(pending, q)[0])
    {
      var i := 0;
      while i < |pending|
        invariant 0 <= i <= |pending|
        invariant OnlyTo(pending, q, i) == []
      {
        if pending[i].sequence == q {
          OnlyStarts(pending, i + 1, q);
          return Some(pending[i]);
        }
        i := i + 1;
      }
      return None;
    }

    method ProcessCallback(e: Event) returns (r: Result)
      modifies this`last, this`version, this`resyncPending, this`pending, this`delivered
      ensures Receives(config, old(Snapshot()), e, Snapshot(), r)
    {
      match e {
        case ResyncCallback(sequence, data) =>
          r := HandleResync(sequence, data);
        case DiffCallback(sequence, data, now) =>
          r := ProcessDiff(sequence, data, now);
      }
    }

    method HandleResync(sequence: int, data: Data) returns (r: Result)
      modifies this`last, this`version, this`resyncPending, this`pending, this`delivered
      ensures r == Processed
      ensures Snapshot() == State(Advanced(old(last), sequence), 1, false, [], old(delivered) + [Full(sequence, data)])
    {
      pending := [];
      var _ := SetState(false, 0, None);
      delivered := delivered + [Full(sequence, data)];
      UpdateLastSeq(sequence);
      r := Processed;
    }

    method ProcessDiff(sequence: int, data: Data, now: real) returns (r: Result)
      modifies this`last, this`version, this`resyncPending, this`pending, this`delivered
      ensures Receives(config, old(Snapshot()), DiffCallback(sequence, data, now), Snapshot(), r)
    {
      if config.maxRetries <= 0 {
        return Rejected;
      }
      var stateVersion := version;
      var lastSeq := GetLastSeq();
      if sequence <= lastSeq {
        return Duplicate;
      }
      if sequence > lastSeq + 1 {
        var late := CheckGapTimeout(now);
        if late {
          var _ := SetState(true, stateVersion, Some(stateVersion));
          UpdateLastSeq(0);
          pending := [];
          return ResyncTriggered;
        }
        var queued := AddPending(Callback(sequence, data, now));
        return if queued then Pending else Rejected;
      }
      var todo, newLast, more := Drain(sequence, data);
      // One callback at a time: the version has not moved since it was read, so no retry is due.
      var ok := SetState(false, stateVersion, Some(stateVersion));
      assert ok;
      delivered := delivered + todo;
      UpdateLastSeq(newLast);
      assert InOrderRun(old(Snapshot()), sequence, data, Snapshot(), more);
      return Processed;
    }

    /** Collect the callback and every consecutive pending one, removing those from the queue. */
    method Drain(sequence: int, data: Data) returns (todo: seq<Delivery>, newLast: int, ghost more: seq<Delivery>)
      modifies this`pending
      ensures DeliversRun(old(pending), sequence + 1, more, newLast + 1)
      ensures pending == WithoutRun(old(pending), sequence + 1, |more|)
      ensures todo == [Diff(sequence, data)] + more && newLast == sequence + |more|
    {
      todo, newLast, more := [Diff(sequence, data)], sequence, [];
      while pending != []
        invariant Collected(old(pending), sequence + 1, pending, more)
        invariant todo == [Diff(sequence, data)] + more && newLast == sequence + |more|
        decreases |pending|
      {
        var next := FirstPending(newLast + 1);
        if next.None? {
          break;
        }
        var d := Diff(newLast + 1, next.value.data);
        CollectNext(old(pending), sequence + 1, pending, more, d);
        todo, more := todo + [d], more + [d];
        pending := Without(pending, newLast + 1);
        newLast := newLast + 1;
      }
      NextIs(old(pending), sequence + 1, |more|, pending, newLast + 1);
    }
  }

  /** The drain loop: the deliveries collected, and the queue that is left. */
  ghost predicate Collected(s: seq<Callback>, from: int, left: seq<Callback>, more: seq<Delivery>) {
    Consecutive(more, from) && AreFirsts(s, more) && left == WithoutRun(s, from, |more|)
  }

  lemma NextIs(s: seq<Callback>, from: int, n: nat, left: seq<Callback>, q: int)
    requires left == WithoutRun(s, from, n) && q == from + n
    ensures Only(left, q) == Only(s, q)
  {
    OnlyWithoutRun(s, from, n, q);
  }

  lemma CollectNext(s: seq<Callback>, from: int, left: seq<Callback>, more: seq<Delivery>, d: Delivery)
    requires Collected(s, from, left, more) && d.sequence == from + |more| && IsFirst(left, d)
    ensures Collected(s, from, Without(left, d.sequence), more + [d])
    ensures |Without(left, d.sequence)| < |left|
  {
    NextIs(s, from, |more|, left, d.sequence);
    OnlyWithout(left, d.sequence, d.sequence);
    assert WithoutRun(s, from, |more| + 1) == Without(left, d.sequence);
  }

  /** A prefix's first callback numbered `q` is the whole queue's. */
  lemma {:induction false} OnlyStarts(s: seq<Callback>, n: nat, q: int)
    requires n <= |s| && OnlyTo(s, q, n) != []
    ensures Only(s, q) != [] && Only(s, q)[0] == OnlyTo(s, q, n)[0]
    decreases |s| - n
  {
    if n < |s| {
      OnlyStarts(s, n + 1, q);
    }
  }
}
