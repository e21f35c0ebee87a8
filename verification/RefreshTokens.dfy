/** Refresh-token rotation under concurrency: the compare-and-swap that consumes a token, the
    re-stamp after it, the unconditional mark, and rows that may vanish at any moment. */
module RefreshTokens {
  import opened Options

  /** A stored token: what it was issued with, and whether it has been consumed. */
  datatype Token = Token(actor: string, identifier: string, created: int, expires: int, chain: string, used: bool, usedAt: int)

  /** A call between its storage operations: `try_mark_refresh_token_used` from `Reads` to
      `Answered`, `mark_refresh_token_used` from `MarkReads` to `Marked`. `readAt` is when the
      call last read the row. */
  datatype Caller = Reads(token: string)
                  | Cleans(token: string)
                  | Swaps(token: string, seen: Token, readAt: int)
                  | Restamps(token: string, stamped: Token, readAt: int)
                  | Rereads(token: string)
                  | Answered(token: string, success: bool, data: Option<Token>, readAt: int)
                  | MarkReads(token: string)
                  | MarkWrites(token: string, seen: Token)
                  | Marked(token: string, found: bool)

  /** The stored rows, every token as it was issued, and the callers. */
  datatype State = State(rows: map<string, Token>, issued: map<string, Token>, callers: seq<Caller>)

  /** A caller's next operation (`written` says whether the best-effort re-stamp lands), a new
      token with a name never used before, or the removal of a row: revocation of the token, of
      its chain or of its actor, clean-up, or the store's own expiry. */
  datatype Event = Move(pid: nat, now: int, written: bool)
                 | Issue(token: string, actor: string, identifier: string, chain: string, now: int, ttl: int)
                 | Vanish(token: string)

  function Spend(t: Token, now: int): Token {
    t.(used := true, usedAt := now)
  }

  function Move1(s: State, pid: nat, c: Caller): State
    requires pid < |s.callers|
  {
    s.(callers := s.callers[pid := c])
  }

  function Step(s: State, e: Event): State {
    match e
    case Move(pid, now, written) => if pid < |s.callers| then Act(s, pid, s.callers[pid], now, written) else s
    case Issue(token, actor, identifier, chain, now, ttl) =>
      if token in s.issued then s
      else
        var t := Token(actor, identifier, now, now + ttl, chain, false, 0);
        s.(rows := s.rows[token := t], issued := s.issued[token := t])
    case Vanish(token) => s.(rows := s.rows - {token})
  }

  function Act(s: State, pid: nat, c: Caller, now: int, written: bool): State
    requires pid < |s.callers|
  {
    match c
    case Reads(token) =>
      if token !in s.rows then Move1(s, pid, Answered(token, false, None, now))
      else if s.rows[token].used then Move1(s, pid, Answered(token, false, Some(s.rows[token]), now))
      else if now > s.rows[token].expires then Move1(s, pid, Cleans(token))
      else Move1(s, pid, Swaps(token, s.rows[token], now))
    case Cleans(token) => Move1(s.(rows := s.rows - {token}), pid, Answered(token, false, None, now))
    case Swaps(token, seen, at) =>
      if token in s.rows && s.rows[token] == seen then
        Move1(s.(rows := s.rows[token := Spend(seen, now)]), pid, Restamps(token, Spend(seen, now), at))
      else Move1(s, pid, Rereads(token))
    case Restamps(token, stamped, at) =>
      Move1(if written then s.(rows := s.rows[token := stamped]) else s, pid, Answered(token, true, Some(stamped), at))
    case Rereads(token) =>
      Move1(s, pid, Answered(token, false, if token in s.rows then Some(s.rows[token]) else None, now))
    case MarkReads(token) =>
      Move1(s, pid, if token in s.rows then MarkWrites(token, s.rows[token]) else Marked(token, false))
    case MarkWrites(token, seen) =>
      Move1(s.(rows := s.rows[token := Spend(seen, now)]), pid, Marked(token, true))
    case _ => s
  }

  function Run(s: State, events: seq<Event>, n: nat): State
    requires n <= |events|
  {
    if n == 0 then s else Step(Run(s, events, n - 1), events[n - 1])
  }

  predicate Initial(s: State) {
    s.issued == s.rows && forall i :: 0 <= i < |s.callers| ==> s.callers[i].Reads? || s.callers[i].MarkReads?
  }

  // ---- the invariant ----

  /** The token is stored and still good for one rotation. */
  predicate Unspent(s: State, token: string) {
    token in s.rows && !s.rows[token].used
  }

  predicate Won(c: Caller) {
    c.Restamps? || (c.Answered? && c.success)
  }

  /** `t` is the token as issued, consumed or not. */
  predicate Derived(t: Token, issued: Token) {
    t.(used := issued.used, usedAt := issued.usedAt) == issued && (!t.used ==> t == issued)
  }

  ghost predicate GoodRow(s: State, token: string) {
    token in s.rows ==> token in s.issued && Derived(s.rows[token], s.issued[token])
  }

  ghost predicate GoodCaller(s: State, c: Caller) {
    match c
    case Swaps(token, seen, at) => token in s.issued && seen == s.issued[token] && !seen.used && at <= seen.expires
    case Restamps(token, stamped, at) =>
      token in s.issued && stamped.used && Derived(stamped, s.issued[token]) && !Unspent(s, token) && at <= stamped.expires
    case Rereads(token) => token in s.issued && !Unspent(s, token)
    case MarkWrites(token, seen) => token in s.issued && Derived(seen, s.issued[token])
    case Answered(token, success, data, at) =>
      && (success ==> data.Some? && at <= data.value.expires)
      && (data.Some? ==> token in s.issued && !Unspent(s, token)
                         && data.value.used && Derived(data.value, s.issued[token]))
    case _ => true
  }

  predicate BothWon(c: Caller, d: Caller) {
    Won(c) && Won(d) && c.token == d.token
  }

  ghost predicate OneWinner(s: State) {
    forall i, j :: 0 <= i < |s.callers| && 0 <= j < |s.callers| && BothWon(s.callers[i], s.callers[j]) ==> i == j
  }

  ghost predicate Good(s: State) {
    && (forall token :: token in s.rows ==> GoodRow(s, token))
    && (forall i :: 0 <= i < |s.callers| ==> GoodCaller(s, s.callers[i]))
    && OneWinner(s)
  }

  /** What one step does to the rest of the system: issued tokens are fixed, rows stay rows of
      issued tokens, and a token that is not good for a rotation never becomes so again. */
  ghost predicate Onward(s: State, s': State) {
    && s.issued.Keys <= s'.issued.Keys
    && (forall token :: token in s.issued ==> s'.issued[token] == s.issued[token])
    && (forall token :: token in s'.rows ==> GoodRow(s', token))
    && (forall token :: token in s.issued && Unspent(s', token) ==> Unspent(s, token))
  }

  lemma CallerStaysGood(s: State, s': State, c: Caller)
    requires Onward(s, s') && GoodCaller(s, c)
    ensures GoodCaller(s', c)
  {}

  lemma StepOnward(s: State, e: Event)
    requires Good(s)
    ensures Onward(s, Step(s, e))
  {
    if e.Move? && e.pid < |s.callers| {
      assert GoodCaller(s, s.callers[e.pid]);
      MoveOnward(s, e.pid, s.callers[e.pid], e.now, e.written);
    }
  }

  lemma MoveOnward(s: State, pid: nat, c: Caller, now: int, written: bool)
    requires pid < |s.callers| && (forall token :: token in s.rows ==> GoodRow(s, token)) && GoodCaller(s, c)
    ensures Onward(s, Act(s, pid, c, now, written))
  {
    var s' := Act(s, pid, c, now, written);
    forall token | token in s'.rows
      ensures GoodRow(s', token)
    {
      assert token in s.rows ==> GoodRow(s, token);
    }
  }

  /** Only the swap that finds the token unspent makes a winner. */
  lemma MoverIsGood(s: State, pid: nat, now: int, written: bool)
    requires Good(s) && pid < |s.callers|
    ensures var s' := Act(s, pid, s.callers[pid], now, written);
            && |s'.callers| == |s.callers| && s'.callers[pid].token == s.callers[pid].token
            && GoodCaller(s', s'.callers[pid])
            && (Won(s'.callers[pid]) && !Won(s.callers[pid]) ==> Unspent(s, s.callers[pid].token))
  {
    var c := s.callers[pid];
    assert GoodCaller(s, c);
    assert c.token in s.rows ==> GoodRow(s, c.token);
  }

  lemma WinnersAreSpent(s: State, i: nat)
    requires Good(s) && i < |s.callers| && Won(s.callers[i])
    ensures !Unspent(s, s.callers[i].token)
  {
    assert GoodCaller(s, s.callers[i]);
  }

  lemma StepKeepsOneWinner(s: State, pid: nat, now: int, written: bool)
    requires Good(s) && pid < |s.callers|
    ensures OneWinner(Act(s, pid, s.callers[pid], now, written))
  {
    var s' := Act(s, pid, s.callers[pid], now, written);
    MoverIsGood(s, pid, now, written);
    assert s'.callers == s.callers[pid := s'.callers[pid]];
    forall i, j | 0 <= i < |s'.callers| && 0 <= j < |s'.callers| && BothWon(s'.callers[i], s'.callers[j])
      ensures i == j
    {
      if i != j && i != pid { WinnersAreSpent(s, i); }
      if i != j && j != pid { WinnersAreSpent(s, j); }
    }
  }

  lemma StepIsGood(s: State, e: Event)
    requires Good(s)
    ensures Good(Step(s, e))
  {
    var s' := Step(s, e);
    StepOnward(s, e);
    if e.Move? && e.pid < |s.callers| {
      MoverIsGood(s, e.pid, e.now, e.written);
      StepKeepsOneWinner(s, e.pid, e.now, e.written);
    }
    forall i | 0 <= i < |s'.callers|
      ensures GoodCaller(s', s'.callers[i])
    {
      if !(e.Move? && i == e.pid) {
        CallerStaysGood(s, s', s.callers[i]);
      }
    }
  }

  lemma {:induction false} RunIsGood(s0: State, events: seq<Event>, n: nat)
    requires Initial(s0) && n <= |events|
    ensures Good(Run(s0, events, n))
  {
    if n > 0 {
      RunIsGood(s0, events, n - 1);
      StepIsGood(Run(s0, events, n - 1), events[n - 1]);
    }
  }

  // ---- the results ----

  /** Single rotation: in every interleaving at most one call succeeds for a token. */
  lemma SingleRotation(s0: State, events: seq<Event>, n: nat, i: nat, j: nat)
    requires Initial(s0) && n <= |events|
    requires var cs := Run(s0, events, n).callers;
             i < |cs| && j < |cs| && cs[i].Answered? && cs[j].Answered? && cs[i].success && cs[j].success
             && cs[i].token == cs[j].token
    ensures i == j
  {
    RunIsGood(s0, events, n);
    var cs := Run(s0, events, n).callers;
    assert BothWon(cs[i], cs[j]);
  }

  /** Once a token is consumed or gone, it is never stored unconsumed again: not by a late
      re-stamp, not by a late mark, not after a revocation. */
  lemma {:induction false} SpentForever(s0: State, events: seq<Event>, n: nat, m: nat, token: string)
    requires Initial(s0) && n <= m <= |events|
    requires token in Run(s0, events, n).issued && !Unspent(Run(s0, events, n), token)
    ensures token in Run(s0, events, m).issued && !Unspent(Run(s0, events, m), token)
  {
    if n < m {
      SpentForever(s0, events, n, m - 1, token);
      RunIsGood(s0, events, m - 1);
      StepOnward(Run(s0, events, m - 1), events[m - 1]);
    }
  }

  /** Every answer is honest: a winner read its token before it expired and has it as issued but
      consumed; a loser that gets token data gets consumed data of the token it asked about. */
  lemma AnswersAreHonest(s0: State, events: seq<Event>, n: nat, i: nat)
    requires Initial(s0) && n <= |events|
    requires var s := Run(s0, events, n);
             i < |s.callers| && s.callers[i].Answered?
    ensures var s := Run(s0, events, n);
            var c := s.callers[i];
            && (c.success ==> c.data.Some? && c.readAt <= c.data.value.expires)
            && (c.data.Some? ==> c.token in s.issued && !Unspent(s, c.token)
                                 && c.data.value.used && Derived(c.data.value, s.issued[c.token]))
  {
    RunIsGood(s0, events, n);
    assert GoodCaller(Run(s0, events, n), Run(s0, events, n).callers[i]);
  }

  // ---- some call does win ----

  predicate Concerns(c: Caller, token: string) {
    c.token == token && (c.MarkReads? || c.MarkWrites? || c.Marked?)
  }

  ghost predicate NoMark(s: State, token: string) {
    forall i :: 0 <= i < |s.callers| ==> !Concerns(s.callers[i], token)
  }

  ghost predicate HasWinner(s: State, token: string) {
    exists i :: 0 <= i < |s.callers| && s.callers[i].token == token && Won(s.callers[i])
  }

  ghost predicate UnspentOrWon(s: State, token: string) {
    Unspent(s, token) || HasWinner(s, token)
  }

  /** A caller that finds the token unspent leaves it so, removes it, or wins it. */
  lemma MoverWins(s: State, pid: nat, now: int, written: bool, token: string)
    requires Good(s) && pid < |s.callers| && !Concerns(s.callers[pid], token)
    ensures var s' := Act(s, pid, s.callers[pid], now, written);
            var c' := s'.callers[pid];
            && !Concerns(c', token)
            && (Won(s.callers[pid]) ==> Won(c'))
            && (Unspent(s, token) && token in s'.rows ==> Unspent(s', token) || (c'.token == token && Won(c')))
  {
    assert GoodCaller(s, s.callers[pid]);
  }

  lemma WinnerStays(s: State, s': State, token: string)
    requires HasWinner(s, token) && |s'.callers| == |s.callers|
    requires forall i :: 0 <= i < |s.callers| && Won(s.callers[i]) ==> Won(s'.callers[i]) && s'.callers[i].token == s.callers[i].token
    ensures HasWinner(s', token)
  {
    var i :| 0 <= i < |s.callers| && s.callers[i].token == token && Won(s.callers[i]);
    assert s'.callers[i].token == token && Won(s'.callers[i]);
  }

  lemma WinKept(s: State, e: Event, token: string)
    requires Good(s) && UnspentOrWon(s, token) && NoMark(s, token) && token in Step(s, e).rows
    ensures UnspentOrWon(Step(s, e), token) && NoMark(Step(s, e), token)
  {
    var s' := Step(s, e);
    if e.Move? && e.pid < |s.callers| {
      MoverIsGood(s, e.pid, e.now, e.written);
      assert !Concerns(s.callers[e.pid], token);
      MoverWins(s, e.pid, e.now, e.written, token);
      assert s'.callers == s.callers[e.pid := s'.callers[e.pid]];
    }
    if HasWinner(s, token) {
      WinnerStays(s, s', token);
    }
  }

  lemma {:induction false} RunKeepsWin(s0: State, events: seq<Event>, n: nat, token: string)
    requires Initial(s0) && n <= |events| && Unspent(s0, token) && NoMark(s0, token)
    requires forall k :: 0 <= k <= n ==> token in Run(s0, events, k).rows
    ensures UnspentOrWon(Run(s0, events, n), token) && NoMark(Run(s0, events, n), token)
  {
    if n > 0 {
      RunKeepsWin(s0, events, n - 1, token);
      RunIsGood(s0, events, n - 1);
      assert token in Run(s0, events, n).rows;
      WinKept(Run(s0, events, n - 1), events[n - 1], token);
    }
  }

  // ---- when there is no data, and what a call alone does ----

  /** At one of the caller's own moves before the `n`th event, the token was not stored or expired. */
  ghost predicate Missed(s0: State, events: seq<Event>, n: nat, i: nat, token: string) {
    exists k: nat :: k < n && k < |events| && MissedAt(s0, events, k, i, token)
  }

  ghost predicate MissedAt(s0: State, events: seq<Event>, k: nat, i: nat, token: string)
    requires k < |events|
  {
    && events[k].Move? && events[k].pid == i
    && var rows := Run(s0, events, k).rows; token !in rows || events[k].now > rows[token].expires
  }

  predicate GaveNone(c: Caller) {
    c.Answered? && !c.success && c.data.None?
  }

  lemma StepMissed(s: State, e: Event, i: nat)
    requires i < |s.callers|
    ensures var s' := Step(s, e);
            && |s'.callers| == |s.callers| && s'.callers[i].token == s.callers[i].token
            && (s'.callers[i].Cleans? || GaveNone(s'.callers[i]) ==>
                  || s.callers[i].Cleans? || GaveNone(s.callers[i])
                  || (e.Move? && e.pid == i && (s.callers[i].token !in s.rows || e.now > s.rows[s.callers[i].token].expires)))
  {}

  /** "Does not exist or is expired" is only said of a token that was not stored, or had expired,
      when the caller looked. */
  lemma {:induction false} NoDataMeansMissed(s0: State, events: seq<Event>, n: nat, i: nat)
    requires Initial(s0) && n <= |events| && i < |s0.callers|
    ensures |Run(s0, events, n).callers| == |s0.callers|
    ensures var c := Run(s0, events, n).callers[i];
            && c.token == s0.callers[i].token
            && (c.Cleans? || GaveNone(c) ==> Missed(s0, events, n, i, c.token))
  {
    if n > 0 {
      NoDataMeansMissed(s0, events, n - 1, i);
      var s, e := Run(s0, events, n - 1), events[n - 1];
      var c := s.callers[i];
      StepMissed(s, e, i);
      if c.Cleans? || GaveNone(c) {
        var k: nat :| k < n - 1 && MissedAt(s0, events, k, i, c.token);
        assert k < n;
      } else {
        assert MissedAt(s0, events, n - 1, i, c.token) ==> Missed(s0, events, n, i, c.token);
      }
    }
  }

  /** The next `k` events are moves of caller `pid`. */
  predicate Alone(events: seq<Event>, n: nat, k: nat, pid: nat) {
    n + k <= |events| && forall j :: n <= j < n + k ==> events[j].Move? && events[j].pid == pid
  }

  /** A call that nobody interferes with rotates a stored, unused token that has not expired: it
      answers with the token as issued but consumed, and that is what is stored. */
  lemma GoodTokenRotates(s0: State, events: seq<Event>, n: nat, pid: nat, token: string)
    requires Initial(s0) && Alone(events, n, 3, pid)
    requires var s := Run(s0, events, n);
             && pid < |s.callers| && s.callers[pid] == Reads(token)
             && Unspent(s, token) && token in s.issued && events[n].now <= s.issued[token].expires
    ensures var s, s' := Run(s0, events, n), Run(s0, events, n + 3);
            var d := s.issued[token].(used := true, usedAt := events[n + 1].now);
            pid < |s'.callers| && s'.callers[pid] == Answered(token, true, Some(d), events[n].now) && s'.rows == s.rows[token := d]
  {
    RunIsGood(s0, events, n);
    var s := Run(s0, events, n);
    assert GoodRow(s, token) && s.rows[token] == s.issued[token];
    assert Run(s0, events, n + 1) == Step(s, events[n]);
    assert Run(s0, events, n + 2) == Step(Run(s0, events, n + 1), events[n + 1]);
    assert Run(s0, events, n + 3) == Step(Run(s0, events, n + 2), events[n + 2]);
  }

  lemma IssueStores(s: State, token: string, actor: string, identifier: string, chain: string, now: int, ttl: int)
    requires token !in s.issued
    ensures var s' := Step(s, Issue(token, actor, identifier, chain, now, ttl));
            && s'.callers == s.callers && Unspent(s', token) && token in s'.issued
            && s'.issued[token] == Token(actor, identifier, now, now + ttl, chain, false, 0)
  {}

  /** A stored token is unspent from its issue to its expiry, so the first call alone rotates it. */
  lemma IssuedTokenRotates(s0: State, events: seq<Event>, n: nat, pid: nat, token: string, actor: string,
                           identifier: string, chain: string, now: int, ttl: int)
    requires Initial(s0) && n < |events| && Alone(events, n + 1, 3, pid) && events[n] == Issue(token, actor, identifier, chain, now, ttl)
    requires var s := Run(s0, events, n);
             pid < |s.callers| && s.callers[pid] == Reads(token) && token !in s.issued && events[n + 1].now <= now + ttl
    ensures var s', at := Run(s0, events, n + 4), events[n + 2].now;
            && pid < |s'.callers|
            && s'.callers[pid] == Answered(token, true, Some(Token(actor, identifier, now, now + ttl, chain, true, at)), events[n + 1].now)
  {
    IssueStores(Run(s0, events, n), token, actor, identifier, chain, now, ttl);
    var s1 := Run(s0, events, n + 1);
    assert s1 == Step(Run(s0, events, n), events[n]);
    assert s1.callers[pid] == Reads(token) && Unspent(s1, token);
    GoodTokenRotates(s0, events, n + 1, pid, token);
  }

  /** A mark that nobody interferes with says whether the token was stored, and consumes it. */
  lemma MarkConsumes(s0: State, events: seq<Event>, n: nat, pid: nat, token: string)
    requires Initial(s0) && Alone(events, n, 2, pid)
    requires var s := Run(s0, events, n); pid < |s.callers| && s.callers[pid] == MarkReads(token)
    ensures var s, s' := Run(s0, events, n), Run(s0, events, n + 2);
            && pid < |s'.callers| && s'.callers[pid] == Marked(token, token in s.rows)
            && s'.rows == if token in s.rows then s.rows[token := s.rows[token].(used := true, usedAt := events[n + 1].now)] else s.rows
  {
    assert Run(s0, events, n + 1) == Step(Run(s0, events, n), events[n]);
    assert Run(s0, events, n + 2) == Step(Run(s0, events, n + 1), events[n + 1]);
  }

  ghost predicate AbsentBy(s0: State, events: seq<Event>, n: nat, token: string)
    requires n <= |events|
  {
    exists k :: 0 <= k <= n && AbsentAt(s0, events, k, token)
  }

  ghost predicate AbsentAt(s0: State, events: seq<Event>, k: nat, token: string)
    requires k <= |events|
  {
    token !in Run(s0, events, k).rows
  }

  lemma StepAbsent(s: State, e: Event, i: nat)
    requires i < |s.callers|
    ensures var s' := Step(s, e);
            && |s'.callers| == |s.callers| && s'.callers[i].token == s.callers[i].token
            && (GaveNone(s'.callers[i]) ==>
                  GaveNone(s.callers[i]) || s.callers[i].token !in s.rows || s.callers[i].token !in s'.rows)
  {}

  /** An expired token is removed before its caller answers. */
  lemma {:induction false} NoDataMeansAbsent(s0: State, events: seq<Event>, n: nat, i: nat)
    requires n <= |events| && i < |s0.callers| && !GaveNone(s0.callers[i])
    ensures i < |Run(s0, events, n).callers|
    ensures GaveNone(Run(s0, events, n).callers[i]) ==> AbsentBy(s0, events, n, Run(s0, events, n).callers[i].token)
  {
    if n > 0 {
      NoDataMeansAbsent(s0, events, n - 1, i);
      var s := Run(s0, events, n - 1);
      var token := s.callers[i].token;
      StepAbsent(s, events[n - 1], i);
      if GaveNone(s.callers[i]) {
        var k :| 0 <= k <= n - 1 && AbsentAt(s0, events, k, token);
        assert k <= n;
      } else {
        assert AbsentAt(s0, events, n - 1, token) || AbsentAt(s0, events, n, token) ==> AbsentBy(s0, events, n, token);
      }
    }
  }

  /** While the token stays stored and nothing marks it, a caller that is refused, for whatever
      reason, was beaten by a call that succeeds: the rotation is not lost in the race. */
  lemma RefusedMeansWon(s0: State, events: seq<Event>, n: nat, token: string, i: nat)
    requires Initial(s0) && n <= |events| && Unspent(s0, token) && NoMark(s0, token)
    requires forall k :: 0 <= k <= n ==> token in Run(s0, events, k).rows
    requires i < |s0.callers| && i < |Run(s0, events, n).callers|
    requires var c := Run(s0, events, n).callers[i];
             c.token == token && c.Answered? && !c.success
    ensures HasWinner(Run(s0, events, n), token)
  {
    RunKeepsWin(s0, events, n, token);
    NoDataMeansAbsent(s0, events, n, i);
    if Run(s0, events, n).callers[i].data.Some? {
      AnswersAreHonest(s0, events, n, i);
    }
  }
}
