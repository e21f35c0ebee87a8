/** The metadata row under any number of concurrent writers: bounded compare-and-swap merges,
    migration's unconditional flip, and `clear`'s unconditional reset. The row exists throughout. */
module MetadataCas {
  import opened Decimals
  import opened ListModel
  import opened Migration
  import JsonText

  /** `json.dumps` and `json.loads` of a metadata object. The row holds the text; the
      compare-and-swap compares texts. */
  datatype Json = Json(dumps: Meta -> string, loads: string -> Meta)

  ghost predicate RoundTrips(j: Json) {
    forall m :: j.loads(j.dumps(m)) == m
  }

  /** A concrete form, so that `RoundTrips` is not an empty assumption: the metadata as an object. */
  function FieldName(f: Field): string {
    match f
    case Format => "format"
    case Length => "length"
    case CountHint => "count_hint"
    case EverChanged => "format_ever_changed"
    case Description => "description"
    case Explanation => "explanation"
    case CreatedAt => "created_at"
    case UpdatedAt => "updated_at"
    case ItemType => "item_type"
    case ChunkSize => "chunk_size"
    case Version => "version"
    case Other(name) => "other:" + name
  }

  function IntegerText(n: int): string {
    if n < 0 then "-" + Decimal(-n) else Decimal(n)
  }

  lemma IntegerTextIsNumeral(n: int)
    ensures JsonText.IsNumeral(IntegerText(n)) && (n < 0 <==> IntegerText(n)[0] == '-')
  {
    DecimalParses(if n < 0 then -n else n);
  }

  lemma IntegerTextInjective(n: int, k: int)
    requires IntegerText(n) == IntegerText(k)
    ensures n == k
  {
    IntegerTextIsNumeral(n);
    IntegerTextIsNumeral(k);
    if n < 0 {
      assert IntegerText(n)[1..] == Decimal(-n) && IntegerText(k)[1..] == Decimal(-k);
      DecimalInjective(-n, -k);
    } else {
      DecimalInjective(n, k);
    }
  }

  function ValueJson(v: MVal): JsonText.Json {
    match v
    case Num(n) => IntegerTextIsNumeral(n); JsonText.JNumber(IntegerText(n))
    case Str(s) => JsonText.JText(s)
    case Flag(b) => JsonText.JBool(b)
    case Null => JsonText.JNull
  }

  lemma ValueJsonInjective(v: MVal, w: MVal)
    requires ValueJson(v) == ValueJson(w)
    ensures v == w
  {
    if v.Num? {
      IntegerTextInjective(v.n, w.n);
    }
  }

  lemma FieldNameInjective(f: Field, h: Field)
    requires FieldName(f) == FieldName(h)
    ensures f == h
  {
    if f.Other? && h.Other? {
      assert FieldName(f)[6..] == f.name && FieldName(h)[6..] == h.name;
    } else {
      var a, b := FieldName(f), FieldName(h);
      assert |a| == |b| >= 6 && a[0] == b[0] && a[1] == b[1] && a[2] == b[2];
    }
  }

  lemma FieldNamesDiffer()
    ensures forall f, h :: FieldName(f) == FieldName(h) ==> f == h
  {
    forall f, h | FieldName(f) == FieldName(h)
      ensures f == h
    {
      FieldNameInjective(f, h);
    }
  }

  ghost function MetaJson(m: Meta): JsonText.Json {
    FieldNamesDiffer();
    JsonText.JObject(map f | f in m :: FieldName(f) := ValueJson(m[f]))
  }

  lemma MetaJsonInjective(m: Meta, k: Meta)
    requires MetaJson(m) == MetaJson(k)
    ensures m == k
  {
    FieldNamesDiffer();
    forall f | f in m || f in k
      ensures f in m && f in k && m[f] == k[f]
    {
      assert FieldName(f) in MetaJson(m).fields;
      assert f in m <==> FieldName(f) in MetaJson(m).fields;
      assert f in k <==> FieldName(f) in MetaJson(k).fields;
      ValueJsonInjective(m[f], k[f]);
    }
  }

  ghost function ReadMeta(text: string): Meta {
    if m :| JsonText.Print(MetaJson(m)) == text then m else map[]
  }

  ghost function PlainMeta(): Json {
    Json(m => JsonText.Print(MetaJson(m)), text => ReadMeta(text))
  }

  /** The contract can be met. */
  lemma PlainMetaRoundTrips()
    ensures RoundTrips(PlainMeta())
  {
    var j := PlainMeta();
    forall m
      ensures j.loads(j.dumps(m)) == m
    {
      var text := JsonText.Print(MetaJson(m));
      var k := ReadMeta(text);
      assert JsonText.Print(MetaJson(k)) == text;
      assert JsonText.Print(MetaJson(k)) + "" == text + "";
      JsonText.PrintEnds(MetaJson(k), "", MetaJson(m), "");
      MetaJsonInjective(k, m);
    }
  }

  /** One `_save_metadata` call: the fields it names, its relative changes, its retry bound. */
  datatype Save = Save(updates: Meta, countDelta: int, lengthDelta: int, advisory: bool)

  /** A saver between its database operations (`raw` is the text its next swap is conditioned
      on: a stash taken at dispatch, or its latest read), a migration at its flip, or a `clear`
      between its dispatch and its reset. A migration remembers how many merges had landed when it
      read and when it wrote. */
  datatype Actor = Reading(save: Save, attempt: nat)
                 | Swapping(save: Save, attempt: nat, raw: string)
                 | Saved(save: Save)
                 | GaveUp(save: Save)
                 | Contended(save: Save)
                 | FlipReads
                 | FlipWrites(seen: Meta, landed: nat)
                 | FlipDone(landed: nat, wrote: nat, now: string)
                 | ClearReads
                 | ClearWrites(two: bool)
                 | Finished

  datatype Commit = Commit(pid: nat, save: Save, now: string)

  /** The row's text, the actors, and the merges that were written, in order. */
  datatype State = State(row: string, actors: seq<Actor>, log: seq<Commit>)

  predicate IsSaver(a: Actor) {
    a.Reading? || a.Swapping? || a.Saved? || a.GaveUp? || a.Contended?
  }

  predicate IsFlip(a: Actor) {
    a.FlipReads? || a.FlipWrites? || a.FlipDone?
  }

  predicate IsClear(a: Actor) {
    a.ClearReads? || a.ClearWrites?
  }

  function Bound(save: Save): nat {
    if save.advisory then METADATA_CAS_ADVISORY_MAX_ATTEMPTS else METADATA_CAS_MAX_ATTEMPTS
  }

  function Merged(stored: Meta, c: Commit): Meta {
    Stamped(Merge(stored, c.save.updates, c.save.countDelta, c.save.lengthDelta), c.now)
  }

  function Step(j: Json, s: State, pid: nat, now: string): State {
    if pid >= |s.actors| then s
    else
      match s.actors[pid]
      case Reading(save, a) => s.(actors := s.actors[pid := Swapping(save, a, s.row)])
      case Swapping(save, a, raw) => Swap(j, s, pid, now, save, a, raw)
      case FlipReads => s.(actors := s.actors[pid := FlipWrites(j.loads(s.row), |s.log|)])
      case FlipWrites(seen, landed) =>
        s.(row := j.dumps(Flipped(seen, now)), actors := s.actors[pid := FlipDone(landed, |s.log|, now)])
      case ClearReads => s.(actors := s.actors[pid := ClearWrites(FormatOf(j.loads(s.row)) == 2)])
      case ClearWrites(two) =>
        s.(row := j.dumps(if two then DefaultV2(now) else DefaultV1(now)), actors := s.actors[pid := Finished])
      case _ => s
  }

  function Swap(j: Json, s: State, pid: nat, now: string, save: Save, a: nat, raw: string): State
    requires pid < |s.actors|
  {
    var c := Commit(pid, save, now);
    if s.row == raw then State(j.dumps(Merged(j.loads(raw), c)), s.actors[pid := Saved(save)], s.log + [c])
    else if a + 1 < Bound(save) then s.(actors := s.actors[pid := Reading(save, a + 1)])
    else s.(actors := s.actors[pid := if save.advisory then GaveUp(save) else Contended(save)])
  }

  function Run(j: Json, s: State, schedule: seq<(nat, string)>, n: nat): State
    requires n <= |schedule|
  {
    if n == 0 then s else Step(j, Run(j, s, schedule, n - 1), schedule[n - 1].0, schedule[n - 1].1)
  }

  /** Savers start before a read, or at their first swap with a stash of any age. No caller
      names `format`. */
  predicate Starts(a: Actor) {
    && (a.Reading? ==> a.attempt == 0)
    && (a.Swapping? ==> a.attempt == 0)
    && !a.Saved? && !a.GaveUp? && !a.Contended? && !a.FlipWrites? && !a.FlipDone?
    && !a.ClearWrites? && !a.Finished?
    && (IsSaver(a) ==> Format !in a.save.updates)
  }

  predicate Initial(s: State) {
    s.log == [] && forall i :: 0 <= i < |s.actors| ==> Starts(s.actors[i])
  }

  // ---- what never changes in a run ----

  /** What an actor is, whatever it is doing: `x` and `y` are one call at two moments. */
  predicate SameCall(x: Actor, y: Actor) {
    if IsSaver(x) then IsSaver(y) && y.save == x.save
    else !IsSaver(y) && (IsClear(y) ==> IsClear(x)) && (IsFlip(y) ==> IsFlip(x))
  }

  lemma StepKeepsCalls(j: Json, s: State, pid: nat, now: string)
    ensures |Step(j, s, pid, now).actors| == |s.actors|
    ensures forall i :: 0 <= i < |s.actors| ==> SameCall(s.actors[i], Step(j, s, pid, now).actors[i])
  {}

  lemma {:induction false} RunKeepsCalls(j: Json, s: State, schedule: seq<(nat, string)>, n: nat)
    requires n <= |schedule|
    ensures |Run(j, s, schedule, n).actors| == |s.actors|
    ensures forall i :: 0 <= i < |s.actors| ==> SameCall(s.actors[i], Run(j, s, schedule, n).actors[i])
  {
    if n > 0 {
      RunKeepsCalls(j, s, schedule, n - 1);
      StepKeepsCalls(j, Run(j, s, schedule, n - 1), schedule[n - 1].0, schedule[n - 1].1);
    }
  }

  predicate NoFormatNamed(s: State) {
    forall i :: 0 <= i < |s.actors| && IsSaver(s.actors[i]) ==> Format !in s.actors[i].save.updates
  }

  // ---- the format never reverts ----

  lemma MergeKeepsFormat(stored: Meta, c: Commit)
    requires Format !in c.save.updates
    ensures FormatOf(Merged(stored, c)) == FormatOf(stored)
    ensures FormatOf(stored) == 2 && Length !in stored ==> Length !in Merged(stored, c)
  {}

  /** Exactly one kind of step takes format 2 away: the reset of a `clear` that dispatched on
      format 1 before the flip. */
  lemma FormatRevertsExactly(j: Json, s: State, pid: nat, now: string)
    requires RoundTrips(j) && NoFormatNamed(s) && FormatOf(j.loads(s.row)) == 2
    ensures FormatOf(j.loads(Step(j, s, pid, now).row)) != 2
       <==> pid < |s.actors| && s.actors[pid] == ClearWrites(false)
  {
    if pid < |s.actors| && s.actors[pid].Swapping? {
      MergeKeepsFormat(j.loads(s.row), Commit(pid, s.actors[pid].save, now));
    }
  }

  /** So in every interleaving of savers (each with a stash as stale as you like) and flips, a
      stored format of 2 stays, and no stale `length` is put back over it. */
  lemma {:induction false} FormatNeverReverts(j: Json, s0: State, schedule: seq<(nat, string)>, n: nat, m: nat)
    requires RoundTrips(j) && Initial(s0) && n <= m <= |schedule|
    requires forall i :: 0 <= i < |s0.actors| ==> !IsClear(s0.actors[i])
    requires FormatOf(j.loads(Run(j, s0, schedule, n).row)) == 2
    ensures FormatOf(j.loads(Run(j, s0, schedule, m).row)) == 2
    ensures Length !in j.loads(Run(j, s0, schedule, n).row) ==> Length !in j.loads(Run(j, s0, schedule, m).row)
  {
    if n < m {
      FormatNeverReverts(j, s0, schedule, n, m - 1);
      var s, pid, now := Run(j, s0, schedule, m - 1), schedule[m - 1].0, schedule[m - 1].1;
      RunKeepsCalls(j, s0, schedule, m - 1);
      assert NoFormatNamed(s);
      FormatRevertsExactly(j, s, pid, now);
      if pid < |s.actors| {
        assert SameCall(s0.actors[pid], s.actors[pid]);
        if s.actors[pid].Swapping? {
          MergeKeepsFormat(j.loads(s.row), Commit(pid, s.actors[pid].save, now));
        }
      }
    }
  }

  // ---- no merge drops a field another saver named ----

  /** The merges applied one after the other to the initial metadata. */
  function Replay(m: Meta, log: seq<Commit>, n: nat): Meta
    requires n <= |log|
  {
    if n == 0 then m else Merged(Replay(m, log, n - 1), log[n - 1])
  }

  lemma {:induction false} ReplayPrefix(m: Meta, log: seq<Commit>, c: Commit, n: nat)
    requires n <= |log|
    ensures Replay(m, log + [c], n) == Replay(m, log, n)
  {
    if n > 0 {
      ReplayPrefix(m, log, c, n - 1);
    }
  }

  function CommitsBy(log: seq<Commit>, pid: nat, n: nat): seq<Save>
    requires n <= |log|
  {
    if n == 0 then []
    else if log[n - 1].pid == pid then CommitsBy(log, pid, n - 1) + [log[n - 1].save]
    else CommitsBy(log, pid, n - 1)
  }

  lemma {:induction false} CommitsByPrefix(log: seq<Commit>, c: Commit, pid: nat, n: nat)
    requires n <= |log|
    ensures CommitsBy(log + [c], pid, n) == CommitsBy(log, pid, n)
  {
    if n > 0 {
      CommitsByPrefix(log, c, pid, n - 1);
    }
  }

  /** A saver that returned is in the log once; one that gave up or raised is not in it. */
  ghost predicate Logged(log: seq<Commit>, i: nat, a: Actor) {
    CommitsBy(log, i, |log|) == if a.Saved? then [a.save] else []
  }

  ghost predicate Replayed(j: Json, s0: State, s: State) {
    && j.loads(s.row) == Replay(j.loads(s0.row), s.log, |s.log|)
    && forall i :: 0 <= i < |s.actors| ==> Logged(s.log, i, s.actors[i])
  }

  lemma SwapReplays(j: Json, s0: State, s: State, pid: nat, now: string)
    requires RoundTrips(j) && Replayed(j, s0, s)
    requires pid < |s.actors| && s.actors[pid].Swapping? && s.actors[pid].raw == s.row
    ensures Replayed(j, s0, Step(j, s, pid, now))
  {
    var c := Commit(pid, s.actors[pid].save, now);
    ReplayPrefix(j.loads(s0.row), s.log, c, |s.log|);
    var s' := Step(j, s, pid, now);
    forall i | 0 <= i < |s'.actors|
      ensures Logged(s'.log, i, s'.actors[i])
    {
      CommitsByPrefix(s.log, c, i, |s.log|);
      assert Logged(s.log, i, s.actors[i]);
    }
  }

  lemma QuietReplays(j: Json, s0: State, s: State, pid: nat, now: string)
    requires Replayed(j, s0, s)
    requires pid < |s.actors| ==> IsSaver(s.actors[pid]) && !(s.actors[pid].Swapping? && s.actors[pid].raw == s.row)
    ensures Replayed(j, s0, Step(j, s, pid, now))
  {
    var s' := Step(j, s, pid, now);
    forall i | 0 <= i < |s'.actors|
      ensures Logged(s'.log, i, s'.actors[i])
    {
      assert Logged(s.log, i, s.actors[i]);
    }
  }

  /** Without migration or `clear`, the row is at every moment the initial metadata with the
      returned savers' merges applied in the order they landed: none is lost or half applied. */
  lemma {:induction false} RowIsReplay(j: Json, s0: State, schedule: seq<(nat, string)>, n: nat)
    requires RoundTrips(j) && Initial(s0) && n <= |schedule|
    requires forall i :: 0 <= i < |s0.actors| ==> IsSaver(s0.actors[i])
    ensures Replayed(j, s0, Run(j, s0, schedule, n))
  {
    if n > 0 {
      RowIsReplay(j, s0, schedule, n - 1);
      var s, pid, now := Run(j, s0, schedule, n - 1), schedule[n - 1].0, schedule[n - 1].1;
      RunKeepsCalls(j, s0, schedule, n - 1);
      assert pid < |s.actors| ==> SameCall(s0.actors[pid], s.actors[pid]);
      if pid < |s.actors| && s.actors[pid].Swapping? && s.actors[pid].raw == s.row {
        SwapReplays(j, s0, s, pid, now);
      } else {
        QuietReplays(j, s0, s, pid, now);
      }
    }
  }

  /** The fields a save only ever replaces outright. */
  predicate Plain(f: Field) {
    f != UpdatedAt && f != CountHint && f != Length
  }

  lemma MergedAt(m: Meta, c: Commit, f: Field)
    requires Plain(f)
    ensures f in Merged(m, c) <==> f in c.save.updates || f in m
    ensures f in c.save.updates ==> Merged(m, c)[f] == c.save.updates[f]
    ensures f in m && f !in c.save.updates ==> Merged(m, c)[f] == m[f]
  {}

  /** The value of `f` after the merges: the last one that named it decides, and the others
      leave it alone. */
  lemma {:induction false} LastNamingDecides(m: Meta, log: seq<Commit>, n: nat, k: nat, f: Field)
    requires Plain(f) && k <= n <= |log|
    requires forall i :: k <= i < n ==> f !in log[i].save.updates
    ensures f in Replay(m, log, n) <==> f in Replay(m, log, k)
    ensures f in Replay(m, log, n) ==> Replay(m, log, n)[f] == Replay(m, log, k)[f]
    ensures k > 0 && f in log[k - 1].save.updates ==>
              f in Replay(m, log, n) && Replay(m, log, n)[f] == log[k - 1].save.updates[f]
  {
    if k < n {
      LastNamingDecides(m, log, n - 1, k, f);
      MergedAt(Replay(m, log, n - 1), log[n - 1], f);
    } else if k > 0 {
      MergedAt(Replay(m, log, k - 1), log[k - 1], f);
    }
  }

  function DeltaSum(log: seq<Commit>, n: nat): int
    requires n <= |log|
  {
    if n == 0 then 0 else DeltaSum(log, n - 1) + log[n - 1].save.countDelta
  }

  /** Relative changes are never lost either: over a format 2 row with a count, additions add up. */
  lemma {:induction false} DeltasAddUp(m: Meta, log: seq<Commit>, n: nat, hint: nat)
    requires n <= |log| && FormatOf(m) == 2 && CountHint in m && m[CountHint] == Num(hint)
    requires forall i :: 0 <= i < n ==>
               log[i].save.countDelta >= 0 && CountHint !in log[i].save.updates && Format !in log[i].save.updates
    ensures FormatOf(Replay(m, log, n)) == 2 && DeltaSum(log, n) >= 0
    ensures CountHint in Replay(m, log, n) && Replay(m, log, n)[CountHint] == Num(hint + DeltaSum(log, n))
  {
    if n > 0 {
      DeltasAddUp(m, log, n - 1, hint);
    }
  }

  function LengthSum(log: seq<Commit>, n: nat): int
    requires n <= |log|
  {
    if n == 0 then 0 else LengthSum(log, n - 1) + log[n - 1].save.lengthDelta
  }

  /** The same for the recorded length of a format 1 list. */
  lemma {:induction false} LengthsAddUp(m: Meta, log: seq<Commit>, n: nat, length: nat)
    requires n <= |log| && FormatOf(m) == 1 && Length in m && m[Length] == Num(length)
    requires forall i :: 0 <= i < n ==>
               log[i].save.lengthDelta >= 0 && Length !in log[i].save.updates && Format !in log[i].save.updates
    ensures FormatOf(Replay(m, log, n)) == 1 && LengthSum(log, n) >= 0
    ensures Length in Replay(m, log, n) && Replay(m, log, n)[Length] == Num(length + LengthSum(log, n))
  {
    if n > 0 {
      LengthsAddUp(m, log, n - 1, length);
    }
  }

  /** The two above, for a run: a field some returned saver named, and no later one renamed,
      reads back as that saver wrote it. */
  lemma NamedFieldSurvives(j: Json, s0: State, schedule: seq<(nat, string)>, n: nat, k: nat, f: Field)
    requires RoundTrips(j) && Initial(s0) && n <= |schedule| && Plain(f)
    requires forall i :: 0 <= i < |s0.actors| ==> IsSaver(s0.actors[i])
    requires var log := Run(j, s0, schedule, n).log;
             k < |log| && f in log[k].save.updates && forall i :: k < i < |log| ==> f !in log[i].save.updates
    ensures var s := Run(j, s0, schedule, n);
            f in j.loads(s.row) && j.loads(s.row)[f] == s.log[k].save.updates[f]
  {
    RowIsReplay(j, s0, schedule, n);
    var s := Run(j, s0, schedule, n);
    LastNamingDecides(j.loads(s0.row), s.log, |s.log|, k + 1, f);
  }

  // ---- contention is progress ----

  /** A saver that has not lost a swap yet, and how many of its swaps can fail without anyone else's
      merge in the meantime: one, if what it will compare with is already read or stashed. */
  predicate Fresh(a: Actor) {
    (a.Reading? || a.Swapping?) && a.attempt == 0
  }

  function Stale(a: Actor): nat {
    if a.Swapping? then 1 else 0
  }

  /** Each further lost swap of a saver is one more merge that has landed. */
  ghost predicate Overtaken(row: string, credit: int, a: Actor) {
    && (a.Reading? ==> a.attempt <= credit)
    && (a.Swapping? ==> a.attempt <= credit && (row != a.raw ==> a.attempt + 1 <= credit))
    && (a.GaveUp? || a.Contended? ==> Bound(a.save) <= credit)
  }

  lemma StepOvertakes(j: Json, s: State, i: nat, credit: int, pid: nat, now: string)
    requires forall k :: 0 <= k < |s.actors| ==> IsSaver(s.actors[k])
    requires i < |s.actors| && Overtaken(s.row, credit, s.actors[i])
    ensures var s' := Step(j, s, pid, now);
            && i < |s'.actors| && |s'.log| >= |s.log|
            && Overtaken(s'.row, credit + |s'.log| - |s.log|, s'.actors[i])
  {}

  lemma {:induction false} RunOvertakes(j: Json, s0: State, schedule: seq<(nat, string)>, m: nat, n: nat, i: nat)
    requires m <= n <= |schedule| && forall k :: 0 <= k < |s0.actors| ==> IsSaver(s0.actors[k])
    requires i < |Run(j, s0, schedule, m).actors| && Fresh(Run(j, s0, schedule, m).actors[i])
    ensures var u, s := Run(j, s0, schedule, m), Run(j, s0, schedule, n);
            i < |s.actors| && Overtaken(s.row, |s.log| - |u.log| + Stale(u.actors[i]), s.actors[i])
  {
    if m < n {
      RunOvertakes(j, s0, schedule, m, n - 1, i);
      var u, s := Run(j, s0, schedule, m), Run(j, s0, schedule, n - 1);
      RunKeepsCalls(j, s0, schedule, n - 1);
      forall k | 0 <= k < |s.actors|
        ensures IsSaver(s.actors[k])
      {
        assert SameCall(s0.actors[k], s.actors[k]);
      }
      StepOvertakes(j, s, i, |s.log| - |u.log| + Stale(u.actors[i]), schedule[n - 1].0, schedule[n - 1].1);
      StepKeepsCalls(j, s, schedule[n - 1].0, schedule[n - 1].1);
    }
  }

  /** A saver that gives up or raises has been overtaken: from any moment before its first read on,
      six merges of others have landed (three for an advisory touch), one less if it started with a
      stash. Some saver always gets through. */
  lemma ContentionMeansProgress(j: Json, s0: State, schedule: seq<(nat, string)>, m: nat, n: nat, i: nat)
    requires Initial(s0) && m <= n <= |schedule| && RoundTrips(j)
    requires forall k :: 0 <= k < |s0.actors| ==> IsSaver(s0.actors[k])
    requires i < |Run(j, s0, schedule, m).actors| && i < |Run(j, s0, schedule, n).actors|
    requires Fresh(Run(j, s0, schedule, m).actors[i])
    requires var a := Run(j, s0, schedule, n).actors[i]; a.GaveUp? || a.Contended?
    ensures var u, s := Run(j, s0, schedule, m), Run(j, s0, schedule, n);
            && |s.log| - |u.log| >= (if s.actors[i].save.advisory then 3 else 6) - Stale(u.actors[i])
            && CommitsBy(s.log, i, |s.log|) == []
  {
    RunOvertakes(j, s0, schedule, m, n, i);
    RowIsReplay(j, s0, schedule, n);
    assert Logged(Run(j, s0, schedule, n).log, i, Run(j, s0, schedule, n).actors[i]);
  }

  /** A saver that nobody interferes with merges what it names into what is stored, and returns. */
  lemma LoneSaverSaves(j: Json, s: State, pid: nat, save: Save, a: nat, read: string, now: string)
    requires pid < |s.actors| && s.actors[pid] == Reading(save, a)
    ensures var s' := Step(j, Step(j, s, pid, read), pid, now);
            && s'.row == j.dumps(Stamped(Merge(j.loads(s.row), save.updates, save.countDelta, save.lengthDelta), now))
            && s'.actors == s.actors[pid := Saved(save)] && s'.log == s.log + [Commit(pid, save, now)]
  {}

  /** A saver tries six times, an advisory one three times. */
  ghost predicate WithinBound(a: Actor) {
    a.Reading? || a.Swapping? ==> a.attempt < if a.save.advisory then 3 else 6
  }

  lemma {:induction false} AttemptsAreBounded(j: Json, s0: State, schedule: seq<(nat, string)>, n: nat)
    requires Initial(s0) && n <= |schedule|
    ensures forall i :: 0 <= i < |Run(j, s0, schedule, n).actors| ==> WithinBound(Run(j, s0, schedule, n).actors[i])
  {
    if n == 0 {
      assert forall i :: 0 <= i < |s0.actors| ==> Starts(s0.actors[i]);
    } else {
      AttemptsAreBounded(j, s0, schedule, n - 1);
      var s, pid := Run(j, s0, schedule, n - 1), schedule[n - 1].0;
      assert pid < |s.actors| ==> WithinBound(s.actors[pid]);
    }
  }

  // ---- one migration among the savers ----

  /** The flip of the merges before its read, then the merges from its write on. */
  function AfterFlip(m: Meta, log: seq<Commit>, landed: nat, wrote: nat, now: string): Meta
    requires landed <= wrote <= |log|
  {
    Replay(Flipped(Replay(m, log, landed), now), log[wrote..], |log| - wrote)
  }

  ghost predicate OthersLogged(flip: nat, s: State) {
    forall i :: 0 <= i < |s.actors| && i != flip ==> IsSaver(s.actors[i]) && Logged(s.log, i, s.actors[i])
  }

  lemma SwapLogs(j: Json, flip: nat, s: State, pid: nat, now: string)
    requires OthersLogged(flip, s)
    requires pid < |s.actors| && pid != flip && s.actors[pid].Swapping? && s.actors[pid].raw == s.row
    ensures OthersLogged(flip, Step(j, s, pid, now))
  {
    var s' := Step(j, s, pid, now);
    forall i | 0 <= i < |s'.actors| && i != flip
      ensures IsSaver(s'.actors[i]) && Logged(s'.log, i, s'.actors[i])
    {
      CommitsByPrefix(s.log, Commit(pid, s.actors[pid].save, now), i, |s.log|);
      assert Logged(s.log, i, s.actors[i]);
    }
  }

  /** What the row holds, given where the migration is. */
  ghost predicate FlipRow(m: Meta, flip: Actor, log: seq<Commit>, row: Meta) {
    match flip
    case FlipReads => row == Replay(m, log, |log|)
    case FlipWrites(seen, landed) => landed <= |log| && seen == Replay(m, log, landed) && row == Replay(m, log, |log|)
    case FlipDone(landed, wrote, now) => landed <= wrote <= |log| && row == AfterFlip(m, log, landed, wrote, now)
    case _ => false
  }

  ghost predicate AroundFlip(j: Json, m: Meta, flip: nat, s: State) {
    flip < |s.actors| && OthersLogged(flip, s) && FlipRow(m, s.actors[flip], s.log, j.loads(s.row))
  }

  lemma AfterFlipMore(m: Meta, log: seq<Commit>, c: Commit, landed: nat, wrote: nat, now: string)
    requires landed <= wrote <= |log|
    ensures AfterFlip(m, log + [c], landed, wrote, now) == Merged(AfterFlip(m, log, landed, wrote, now), c)
  {
    var tail := log[wrote..];
    assert (log + [c])[wrote..] == tail + [c];
    ReplayPrefix(m, log, c, landed);
    ReplayPrefix(Flipped(Replay(m, log, landed), now), tail, c, |tail|);
  }

  lemma ReplaySnoc(m: Meta, log: seq<Commit>, c: Commit)
    ensures Replay(m, log + [c], |log + [c]|) == Merged(Replay(m, log, |log|), c)
  {
    ReplayPrefix(m, log, c, |log|);
    assert (log + [c])[|log|] == c;
  }

  lemma FlipRowMore(m: Meta, flip: Actor, log: seq<Commit>, row: Meta, c: Commit)
    requires FlipRow(m, flip, log, row)
    ensures FlipRow(m, flip, log + [c], Merged(row, c))
  {
    match flip {
      case FlipReads => ReplaySnoc(m, log, c);
      case FlipWrites(_, landed) =>
        ReplaySnoc(m, log, c);
        ReplayPrefix(m, log, c, landed);
      case FlipDone(landed, wrote, when) => AfterFlipMore(m, log, c, landed, wrote, when);
      case _ =>
    }
  }

  lemma SwapAroundFlip(j: Json, m: Meta, flip: nat, s: State, pid: nat, now: string)
    requires RoundTrips(j) && AroundFlip(j, m, flip, s)
    requires pid < |s.actors| && pid != flip && s.actors[pid].Swapping? && s.actors[pid].raw == s.row
    ensures AroundFlip(j, m, flip, Step(j, s, pid, now))
  {
    SwapLogs(j, flip, s, pid, now);
    FlipRowMore(m, s.actors[flip], s.log, j.loads(s.row), Commit(pid, s.actors[pid].save, now));
  }

  lemma QuietAroundFlip(j: Json, m: Meta, flip: nat, s: State, pid: nat, now: string)
    requires RoundTrips(j) && AroundFlip(j, m, flip, s)
    requires pid < |s.actors| && pid != flip ==> !(s.actors[pid].Swapping? && s.actors[pid].raw == s.row)
    ensures AroundFlip(j, m, flip, Step(j, s, pid, now))
  {
    var s' := Step(j, s, pid, now);
    assert s.log[|s.log|..] == [];
    forall i | 0 <= i < |s'.actors| && i != flip
      ensures IsSaver(s'.actors[i]) && Logged(s'.log, i, s'.actors[i])
    {
      assert Logged(s.log, i, s.actors[i]);
    }
  }

  /** In every run with one migration among savers, the row is, from the flip on, the flip of the
      merges that landed before its read, followed by the merges that landed after its write:
      those that landed in between are dropped, and no others. */
  lemma {:induction false} FlipDropsTheGap(j: Json, s0: State, flip: nat, schedule: seq<(nat, string)>, n: nat)
    requires RoundTrips(j) && Initial(s0) && n <= |schedule|
    requires flip < |s0.actors| && s0.actors[flip] == FlipReads
    requires forall i :: 0 <= i < |s0.actors| && i != flip ==> IsSaver(s0.actors[i])
    ensures AroundFlip(j, j.loads(s0.row), flip, Run(j, s0, schedule, n))
  {
    if n > 0 {
      FlipDropsTheGap(j, s0, flip, schedule, n - 1);
      var m, s, pid, now := j.loads(s0.row), Run(j, s0, schedule, n - 1), schedule[n - 1].0, schedule[n - 1].1;
      if pid < |s.actors| && pid != flip && s.actors[pid].Swapping? && s.actors[pid].raw == s.row {
        SwapAroundFlip(j, m, flip, s, pid, now);
      } else {
        QuietAroundFlip(j, m, flip, s, pid, now);
      }
    }
  }

  /** Field by field: what a flip does not write itself reads as if the merges in the gap had
      never been made. */
  lemma {:induction false} GapReads(m: Meta, before: Meta, tail: seq<Commit>, n: nat, f: Field)
    requires Plain(f) && n <= |tail|
    requires (f in m <==> f in before) && (f in m ==> m[f] == before[f])
    ensures f in Replay(m, tail, n) <==> f in Replay(before, tail, n)
    ensures f in Replay(m, tail, n) ==> Replay(m, tail, n)[f] == Replay(before, tail, n)[f]
  {
    if n > 0 {
      GapReads(m, before, tail, n - 1, f);
      MergedAt(Replay(m, tail, n - 1), tail[n - 1], f);
      MergedAt(Replay(before, tail, n - 1), tail[n - 1], f);
    }
  }

  lemma GapIsDropped(m: Meta, log: seq<Commit>, landed: nat, wrote: nat, now: string, f: Field)
    requires Plain(f) && f != Format && f != EverChanged && landed <= wrote <= |log|
    ensures var kept, row := Replay(Replay(m, log, landed), log[wrote..], |log| - wrote), AfterFlip(m, log, landed, wrote, now);
            (f in row <==> f in kept) && (f in row ==> row[f] == kept[f])
  {
    GapReads(Flipped(Replay(m, log, landed), now), Replay(m, log, landed), log[wrote..], |log| - wrote, f);
  }

  // ---- why migration and `clear` are excluded ----

  /** A save that lands between a migration's last read and its flip returns normally, and its
      field is gone. */
  lemma FlipDropsASave(j: Json, m: Meta, text: string)
    requires RoundTrips(j) && (Description in m ==> m[Description] != Str(text))
    ensures var save := Save(map[Description := Str(text)], 0, 0, false);
            var s0 := State(j.dumps(m), [Reading(save, 0), FlipReads], []);
            var s := Run(j, s0, [(1, ""), (0, ""), (0, ""), (1, "")], 4);
            && Initial(s0) && s.actors == [Saved(save), FlipDone(0, 1, "")]
            && !(Description in j.loads(s.row) && j.loads(s.row)[Description] == Str(text))
  {
    var save := Save(map[Description := Str(text)], 0, 0, false);
    var schedule := [(1, ""), (0, ""), (0, ""), (1, "")];
    var s0 := State(j.dumps(m), [Reading(save, 0), FlipReads], []);
    assert j.loads(j.dumps(m)) == m;
    assert Run(j, s0, schedule, 0) == s0;
    var s1 := State(j.dumps(m), [Reading(save, 0), FlipWrites(m, 0)], []);
    assert Step(j, s0, 1, "").actors == s1.actors;
    assert Run(j, s0, schedule, 1) == s1;
    var s2 := State(j.dumps(m), [Swapping(save, 0, j.dumps(m)), FlipWrites(m, 0)], []);
    assert Step(j, s1, 0, "").actors == s2.actors;
    assert Run(j, s0, schedule, 2) == s2;
    var s3 := Step(j, s2, 0, "");
    assert s3.actors == [Saved(save), FlipWrites(m, 0)];
    assert Run(j, s0, schedule, 3) == s3;
    assert Run(j, s0, schedule, 4) == Step(j, s3, 1, "");
    assert Step(j, s3, 1, "").actors == [Saved(save), FlipDone(0, 1, "")];
  }

  /** A `clear` that dispatched before the flip writes format 1 back over it. */
  lemma ClearRevertsAFlip(j: Json, m: Meta)
    requires RoundTrips(j) && FormatOf(m) == 1
    ensures var s0 := State(j.dumps(m), [ClearReads, FlipReads], []);
            var schedule := [(0, ""), (1, ""), (1, ""), (0, "")];
            && Initial(s0)
            && FormatOf(j.loads(Run(j, s0, schedule, 3).row)) == 2
            && FormatOf(j.loads(Run(j, s0, schedule, 4).row)) == 1
  {
    var schedule := [(0, ""), (1, ""), (1, ""), (0, "")];
    var s0 := State(j.dumps(m), [ClearReads, FlipReads], []);
    assert Run(j, s0, schedule, 1) == State(j.dumps(m), [ClearWrites(false), FlipReads], []);
    assert Run(j, s0, schedule, 2) == State(j.dumps(m), [ClearWrites(false), FlipWrites(m, 0)], []);
    var s3 := Run(j, s0, schedule, 3);
    assert s3 == State(j.dumps(Flipped(m, "")), [ClearWrites(false), FlipDone(0, 0, "")], []);
    assert Run(j, s0, schedule, 4) == Step(j, s3, 0, "");
  }
}
