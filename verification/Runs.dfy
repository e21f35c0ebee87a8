/** Whole runs over one list: any sequence of operations, format changes and crashes. */
module Runs {
  import opened Keys
  import opened Ranked
  import opened PyList
  import opened ListModel
  import opened RowStore
  import opened ListFacts
  import opened Migration
  import opened PropertyList

  /** One call on an undamaged list, in whichever format it is at the time. The rank cap is
      answered exactly when the next key of an adding call is too long. */
  method Do(l: ListProperty, op: Op) returns (a: Answer)
    requires l.Valid() && l.Usable() && Healthy(l.g, l.store.db)
    modifies l`metaCache, l`rankCache, l`stash, l.store
    ensures a == Failed(RankCap) <==> KeyTooLong(l.g, old(l.Lazy()), op)
    ensures a != Failed(RankCap) ==> l.Valid() && l.Usable() && Keeps(l.g, old(l.store.db), l.store.db)
    ensures a != Failed(RankCap) ==> (l.Abs(), a) == Apply(op, old(l.Abs()))
    ensures a == Failed(RankCap) ==> CappedAt(l.g, old(l.Lazy()), op, l.store.db)
    ensures Content(old(l.Lazy())) == old(l.Abs())
  {
    LazyIsSane(l.g, l.store.db, l.hasHash, l.lazyMax, l.now);
    NeverCapped(op, l.Abs());
    match op
    case Append(x) => a := l.Append(x);
    case Extend(xs) => a := DoExtend(l, xs);
    case Insert(i, x) => a := l.Insert(i, x);
    case _ => a := DoOther(l, op);
  }

  /** The calls that need no new key. */
  method DoOther(l: ListProperty, op: Op) returns (a: Answer)
    requires l.Valid() && l.Usable() && Healthy(l.g, l.store.db) && !op.Append? && !op.Extend? && !op.Insert?
    modifies l`metaCache, l`rankCache, l`stash, l.store
    ensures l.Valid() && l.Usable() && Keeps(l.g, old(l.store.db), l.store.db)
    ensures (l.Abs(), a) == Apply(op, old(l.Abs()))
  {
    match op
    case SetItem(i, x) => a := l.SetItem(i, x);
    case DelItem(i) => a := l.DelItem(i);
    case Pop(i) => a := l.Pop(i);
    case Remove(p) => a := l.Remove(p);
    case RemoveWhere(p, first) => ghost var order; a, order := l.RemoveWhere(p, first);
    case UpdateWhere(p, x, first) => a := l.UpdateWhere(p, x, first);
    case GetItem(i) => a := l.GetItem(i);
    case Slice(s, e) => a := l.Slice(s, e);
    case IndexOf(p, s, e, openEnd) => a := l.IndexOf(p, s, e, openEnd);
    case ToList => a := l.ReadAll();
    case Len => var n := l.ListLength(); a := Number(n);
  }

  method DoExtend(l: ListProperty, xs: seq<Raw>) returns (a: Answer)
    requires l.Valid() && l.Usable() && Healthy(l.g, l.store.db)
    modifies l`metaCache, l`rankCache, l`stash, l.store
    ensures a == if KeyTooLong(l.g, old(l.Lazy()), Extend(xs)) then Failed(RankCap) else Done
    ensures a == Done ==> l.Valid() && l.Usable() && Keeps(l.g, old(l.store.db), l.store.db)
    ensures a == Done ==> l.Abs() == old(l.Abs()) + xs
    ensures a != Done ==> CappedAt(l.g, old(l.Lazy()), Extend(xs), l.store.db)
  {
    LazyIsSane(l.g, l.store.db, l.hasHash, l.lazyMax, l.now);
    ghost var landed;
    a, landed := l.Extend(xs);
    assert a == Done ==> xs[..landed] == xs;
  }

  /** Representation independence. Whatever the starting format, whatever drift the hint has, and
      whatever lazy-migration limit is in force before each call, the answers and the final list
      are those of a plain Python list, up to the first call that needs a key over the cap: the
      list `due` that this call worked on shows it. An exact hint stays exact. */
  method RunAll(l: ListProperty, ops: seq<Op>, limits: seq<int>)
      returns (answers: seq<Answer>, done: nat, ghost due: View)
    requires l.Valid() && l.Usable() && Healthy(l.g, l.store.db) && |limits| == |ops|
    modifies l, l.store
    ensures done <= |ops| && done <= |answers|
    ensures answers[..done] == ApplyAll(ops, old(l.Abs()), done).1
    ensures done == |ops| ==> |answers| == done && l.Abs() == ApplyAll(ops, old(l.Abs()), done).0
    ensures done == |ops| ==> l.Valid() && Keeps(l.g, old(l.store.db), l.store.db)
    ensures done < |ops| ==> answers[done..] == [Failed(RankCap)]
    ensures done < |ops| ==> Content(due) == ApplyAll(ops, old(l.Abs()), done).0 && CappedAt(l.g, due, ops[done], l.store.db)
  {
    done, answers, due := 0, [], l.store.db;
    ghost var base := l.store.db;
    while done < |ops|
      invariant done <= |ops| && l.Valid() && l.Usable() && Keeps(l.g, base, l.store.db)
      invariant (l.Abs(), answers) == ApplyAll(ops, old(l.Abs()), done)
    {
      l.lazyMax := limits[done];
      due := l.Lazy();
      ghost var before := l.store.db;
      var a := Do(l, ops[done]);
      if a == Failed(RankCap) {
        assert (answers + [a])[..done] == answers;
        return answers + [a], done, due;
      }
      KeepsOn(l.g, base, before, l.store.db);
      answers := answers + [a];
      done := done + 1;
    }
    assert answers[..done] == answers;
  }

  // ---- crashes ----

  /** A migration attempt that may stop after any of its row writes, or a call that completes. */
  datatype Event = Crash(allowDamaged: bool) | Call(op: Op, limit: int)

  /** The calls among the first `n` events. */
  function Calls(script: seq<Event>, n: nat): (ops: seq<Op>)
    requires n <= |script|
    ensures |ops| <= n
  {
    if n == 0 then []
    else if script[n - 1].Crash? then Calls(script, n - 1)
    else Calls(script, n - 1) + [script[n - 1].op]
  }

  /** A process starts a migration and dies after some row write; its instance is gone, the
      rows are as that write left them. */
  method CrashingAttempt(store: Store, g: KeyGen, hasHash: bool, allowDamaged: bool, now: string)
    requires Sound(g) && Healthy(g, store.db)
    modifies store
    ensures MidMigration(g, old(store.db), store.db, now) || store.db == old(store.db)
    ensures Healthy(g, store.db) && Content(store.db) == Content(old(store.db))
    ensures store.db.meta.Some? <==> old(store.db).meta.Some?
  {
    var attempt := new Store(store.db);
    var r, ks := MigrateToV2(attempt, g, hasHash, allowDamaged, now);
    var k: nat :| k < |attempt.history|;
    if k > 0 {
      assert MidMigration(g, store.db, attempt.history[k], now);
      StoppedMigrationReads(g, store.db, attempt.history[k], now);
    }
    store.db := attempt.history[k];
  }

  ghost predicate Creatable(v: View, hasHash: bool, nameTaken: bool) {
    v.meta.Some? || (!hasHash && !nameTaken)
  }

  /** One completed call by an instance of its own. */
  method CallOnce(store: Store, g: KeyGen, hasHash: bool, nameTaken: bool, op: Op, limit: int, now: string)
      returns (a: Answer, ghost due: View)
    requires Sound(g) && Healthy(g, store.db) && Creatable(store.db, hasHash, nameTaken)
    modifies store
    ensures a != Failed(RankCap) ==> Healthy(g, store.db) && Creatable(store.db, hasHash, nameTaken)
    ensures a != Failed(RankCap) ==> (Content(store.db), a) == Apply(op, Content(old(store.db)))
    ensures a == Failed(RankCap) ==> CappedAt(g, due, op, store.db) && Content(due) == Content(old(store.db))
  {
    var l := new ListProperty(store, g, hasHash, nameTaken, limit, now);
    due := l.Lazy();
    a := Do(l, op);
  }

  /** The list and the answers are those of a plain list that started as `items`. */
  ghost predicate Answered(script: seq<Event>, n: nat, items: seq<Raw>, list: seq<Raw>, answers: seq<Answer>)
    requires n <= |script|
  {
    (list, answers) == ApplyAll(Calls(script, n), items, |Calls(script, n)|)
  }

  /** Crash safety and convergence. Any number of migration attempts, each stopped anywhere,
      with completed calls in between, then one complete migration: every call answered as a
      plain list would, and at the end exactly the current items in order, in format 2, with no
      version 1 row left. Only a call that needs a key over the cap ends it early. */
  method Survive(store: Store, g: KeyGen, hasHash: bool, nameTaken: bool, script: seq<Event>, now: string)
      returns (answers: seq<Answer>, done: nat, ghost due: View)
    requires Sound(g) && Healthy(g, store.db) && Creatable(store.db, hasHash, nameTaken)
    modifies store
    ensures done <= |script|
    ensures done == |script| ==> Answered(script, done, Content(old(store.db)), Content(store.db), answers)
    ensures done == |script| && !hasHash ==> IsV2(store.db) && store.db.v1 == map[] && Healthy(g, store.db)
    ensures done < |script| ==> script[done].Call? && CappedAt(g, due, script[done].op, store.db)
    ensures done < |script| ==> Answered(script, done, Content(old(store.db)), Content(due), answers)
  {
    answers, done, due := [], 0, store.db;
    ghost var items := Content(store.db);
    while done < |script|
      invariant done <= |script| && Healthy(g, store.db) && Creatable(store.db, hasHash, nameTaken)
      invariant Answered(script, done, items, Content(store.db), answers)
    {
      var capped;
      answers, capped, due := Next(store, g, hasHash, nameTaken, script, done, now, items, answers);
      if capped {
        return;
      }
      done := done + 1;
    }
    LastMigration(store, g, hasHash, nameTaken, now);
  }

  /** One event of a script. */
  method Next(store: Store, g: KeyGen, hasHash: bool, nameTaken: bool, script: seq<Event>, i: nat, now: string,
              ghost items: seq<Raw>, answers: seq<Answer>) returns (answers': seq<Answer>, capped: bool, ghost due: View)
    requires Sound(g) && Healthy(g, store.db) && Creatable(store.db, hasHash, nameTaken)
    requires i < |script| && Answered(script, i, items, Content(store.db), answers)
    modifies store
    ensures !capped ==> Healthy(g, store.db) && Creatable(store.db, hasHash, nameTaken)
    ensures !capped ==> Answered(script, i + 1, items, Content(store.db), answers')
    ensures capped ==> script[i].Call? && CappedAt(g, due, script[i].op, store.db)
    ensures capped ==> Answered(script, i, items, Content(due), answers')
  {
    ghost var before := Content(store.db);
    answers', capped, due := answers, false, store.db;
    match script[i] {
      case Crash(allowDamaged) =>
        CrashingAttempt(store, g, hasHash, allowDamaged, now);
        CrashChangesNothing(script, i, items, before, answers);
      case Call(op, limit) =>
        var a;
        a, due := CallOnce(store, g, hasHash, nameTaken, op, limit, now);
        if a == Failed(RankCap) {
          capped := true;
        } else {
          answers' := answers + [a];
          CallAnswered(script, i, items, before, answers);
        }
    }
  }

  method LastMigration(store: Store, g: KeyGen, hasHash: bool, nameTaken: bool, now: string)
    requires Sound(g) && Healthy(g, store.db)
    modifies store
    ensures Content(store.db) == Content(old(store.db))
    ensures !hasHash ==> IsV2(store.db) && store.db.v1 == map[] && Healthy(g, store.db)
  {
    ghost var base := store.db;
    var l := new ListProperty(store, g, hasHash, nameTaken, 0, now);
    var r := l.Migrate(false);
    assert !hasHash && !IsV2(base) ==> r.Some? && r.value.Migrated?;
    assert !hasHash && IsV2(base) ==> Foreign2(base) == {} || base.v2 == map[];
  }

  lemma CrashChangesNothing(script: seq<Event>, i: nat, items: seq<Raw>, list: seq<Raw>, answers: seq<Answer>)
    requires i < |script| && script[i].Crash? && Answered(script, i, items, list, answers)
    ensures Answered(script, i + 1, items, list, answers)
  {}

  lemma CallAnswered(script: seq<Event>, i: nat, items: seq<Raw>, list: seq<Raw>, answers: seq<Answer>)
    requires i < |script| && script[i].Call? && Answered(script, i, items, list, answers)
    ensures Answered(script, i + 1, items, Apply(script[i].op, list).0, answers + [Apply(script[i].op, list).1])
  {
    AllPrefix(Calls(script, i), script[i].op, items, |Calls(script, i)|);
  }

  lemma {:induction false} AllPrefix(ops: seq<Op>, op: Op, s: seq<Raw>, n: nat)
    requires n <= |ops|
    ensures ApplyAll(ops + [op], s, n) == ApplyAll(ops, s, n)
  {
    if n > 0 {
      AllPrefix(ops, op, s, n - 1);
      assert (ops + [op])[n - 1] == ops[n - 1];
    }
  }

  // ---- the life of a list name ----

  /** What can happen to a list: calls, complete migrations, migrations that stop somewhere
      after their metadata flip, emptying, and deletion followed by re-creation. */
  datatype Action = Use(op: Op, limit: int) | MigrateAll | StopAfterFlip | ClearAll | DeleteAll

  function After(a: Action, s: seq<Raw>): seq<Raw> {
    match a
    case Use(op, _) => Apply(op, s).0
    case ClearAll => []
    case DeleteAll => []
    case _ => s
  }

  function AfterAll(actions: seq<Action>, s: seq<Raw>, n: nat): seq<Raw>
    requires n <= |actions|
  {
    if n == 0 then s else After(actions[n - 1], AfterAll(actions, s, n - 1))
  }

  /** A started migration that reaches its flip and stops at any later row write. */
  method StoppedAfterFlip(store: Store, g: KeyGen, now: string)
    requires Sound(g) && Healthy(g, store.db) && Exact(store.db)
    modifies store
    ensures Healthy(g, store.db) && Exact(store.db) && IsV2(store.db)
    ensures Content(store.db) == Content(old(store.db))
  {
    var attempt := new Store(store.db);
    ghost var base := store.db;
    var r, ks := MigrateToV2(attempt, g, false, false, now);
    MigratedIsSane(g, base, attempt.db, now);
    var k: nat :| k < |attempt.history|;
    var left := attempt.history[k];
    if IsV2(left) {
      if k > 0 {
        FlippedIsExact(g, base, left, now);
      }
      store.db := left;
    } else {
      store.db := attempt.db;
    }
  }

  lemma FlippedIsExact(g: KeyGen, base: View, s: View, now: string)
    requires Sound(g) && Healthy(g, base) && Exact(base) && MidMigration(g, base, s, now) && IsV2(s)
    ensures Healthy(g, s) && Exact(s) && Content(s) == Content(base)
  {
    StoppedMigrationReads(g, base, s, now);
    if IsV2(base) && base.meta.None? {
      assert s.v2 == map[];
    }
  }

  /** Through any such life, rows of the other format never hide behind the claim that the
      list never changed format, so no skipped sweep leaves anything; the hint stays exact; and
      a re-created list starts empty. Only a call that needs a key over the cap ends it early. */
  method LifeCycle(store: Store, g: KeyGen, actions: seq<Action>, now: string) returns (done: nat, ghost due: View)
    requires Sound(g) && Healthy(g, store.db) && Exact(store.db)
    modifies store
    ensures done <= |actions|
    ensures done == |actions| ==> Healthy(g, store.db) && Exact(store.db)
    ensures done == |actions| ==> Content(store.db) == AfterAll(actions, Content(old(store.db)), done)
    ensures done < |actions| ==> actions[done].Use? && CappedAt(g, due, actions[done].op, store.db)
    ensures done < |actions| ==> Content(due) == AfterAll(actions, Content(old(store.db)), done)
  {
    done, due := 0, store.db;
    while done < |actions|
      invariant done <= |actions| && Healthy(g, store.db) && Exact(store.db)
      invariant Content(store.db) == AfterAll(actions, Content(old(store.db)), done)
    {
      var capped;
      capped, due := Act(store, g, actions[done], now);
      if capped {
        return;
      }
      done := done + 1;
    }
  }

  method Act(store: Store, g: KeyGen, action: Action, now: string) returns (capped: bool, ghost due: View)
    requires Sound(g) && Healthy(g, store.db) && Exact(store.db)
    modifies store
    ensures !capped ==> Healthy(g, store.db) && Exact(store.db)
    ensures !capped ==> Content(store.db) == After(action, Content(old(store.db)))
    ensures capped ==> action.Use? && CappedAt(g, due, action.op, store.db) && Content(due) == Content(old(store.db))
  {
    var l := new ListProperty(store, g, false, false, if action.Use? then action.limit else 0, now);
    capped, due := false, l.Lazy();
    match action {
      case Use(op, _) =>
        var a := Do(l, op);
        capped := a == Failed(RankCap);
      case MigrateAll =>
        var _ := l.Migrate(false);
      case StopAfterFlip =>
        StoppedAfterFlip(store, g, now);
      case ClearAll =>
        var _ := l.Clear();
      case DeleteAll =>
        var _ := l.Delete();
        EmptyReads();
    }
  }
}
