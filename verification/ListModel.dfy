/** One list's rows in the property table, as its readers see them. */
module ListModel {
  import opened Options
  import opened Keys
  import opened Ranked

  /** How often a metadata write is tried, and how often one that only records a row change is. */
  const METADATA_CAS_MAX_ATTEMPTS: nat := 6
  const METADATA_CAS_ADVISORY_MAX_ATTEMPTS: nat := 3

  /** A metadata field's value, as JSON. */
  datatype MVal = Num(n: int) | Str(s: string) | Flag(b: bool) | Null

  /** The keys of the metadata object; `Other` is any field this code does not know. */
  datatype Field = Format | Length | CountHint | EverChanged | Description | Explanation
                 | CreatedAt | UpdatedAt | ItemType | ChunkSize | Version | Other(name: string)

  type Meta = map<Field, MVal>

  /** The metadata row, the rows `list:{name}-{index}` and the rows `list:{name}-#{rank}`. */
  datatype View = View(meta: Option<Meta>, v1: map<nat, Raw>, v2: Rows)

  /** `int(meta.get("format", 1) or 1)`. */
  function FormatOf(m: Meta): int {
    if Format in m && m[Format].Num? && m[Format].n != 0 then m[Format].n else 1
  }

  function LengthOf(m: Meta): int {
    if Length in m && m[Length].Num? then m[Length].n else 0
  }

  /** A list with no metadata row is a new list, and new lists use format 2. */
  predicate IsV2(v: View) {
    v.meta.None? || FormatOf(v.meta.value) == 2
  }

  function DefaultV2(now: string): Meta {
    map[Format := Num(2), CreatedAt := Str(now), UpdatedAt := Str(now), ItemType := Str("json"),
        ChunkSize := Num(1), Version := Str("1.0"), CountHint := Num(0), Description := Str(""),
        Explanation := Str(""), EverChanged := Flag(false)]
  }

  function DefaultV1(now: string): Meta {
    map[Length := Num(0), CreatedAt := Str(now), UpdatedAt := Str(now), ItemType := Str("json"),
        ChunkSize := Num(1), Version := Str("1.0"), Description := Str(""),
        Explanation := Str(""), EverChanged := Flag(false)]
  }

  function NonNegative(x: int): int {
    if x < 0 then 0 else x
  }

  /** What `_save_metadata` writes over a row it has just read: the named fields (never a
      `length` over format 2), then the relative changes. */
  function Merge(stored: Meta, updates: Meta, countDelta: int, lengthDelta: int): Meta {
    var isTwo := FormatOf(stored) == 2;
    var ups := if isTwo then updates - {Length} else updates;
    var m := stored + ups;
    var m1 := if countDelta != 0 && isTwo && CountHint !in ups && CountHint in m && m[CountHint].Num?
              then m[CountHint := Num(NonNegative(m[CountHint].n + countDelta))] else m;
    if lengthDelta != 0 && FormatOf(stored) == 1 && Length !in ups && Length in m1 && m1[Length].Num?
    then m1[Length := Num(NonNegative(m1[Length].n + lengthDelta))] else m1
  }

  /** Relative changes add up, and stop at zero; a length is never written over format 2. */
  lemma MergeCounts(stored: Meta, updates: Meta, countDelta: int, lengthDelta: int, k: int)
    requires Format !in updates
    ensures var r := Merge(stored, updates, countDelta, lengthDelta);
            && (FormatOf(stored) == 2 && CountHint !in updates && CountHint in stored && stored[CountHint] == Num(k) ==>
                  CountHint in r && r[CountHint] == Num(if countDelta == 0 || k + countDelta >= 0 then k + countDelta else 0))
            && (FormatOf(stored) == 1 && Length !in updates && Length in stored && stored[Length] == Num(k) ==>
                  Length in r && r[Length] == Num(if lengthDelta == 0 || k + lengthDelta >= 0 then k + lengthDelta else 0))
            && (FormatOf(stored) == 2 ==> (Length in r <==> Length in stored) && (Length in r ==> r[Length] == stored[Length]))
  {}

  function Stamped(m: Meta, now: string): Meta {
    m[UpdatedAt := Str(now)]
  }

  /** The stored values at `[0, n)` in index order, holes skipped. */
  function Present(v1: map<nat, Raw>, n: nat): (r: seq<Raw>)
    ensures |r| <= n
  {
    if n == 0 then []
    else if n - 1 in v1 then Present(v1, n - 1) + [v1[n - 1]]
    else Present(v1, n - 1)
  }

  ghost predicate Dense(v1: map<nat, Raw>, n: nat) {
    forall i: nat :: i in v1 <==> i < n
  }

  /** No hole below `n`; rows past the end may exist. */
  ghost predicate Filled(v1: map<nat, Raw>, n: nat) {
    forall i: nat :: i < n ==> i in v1
  }

  ghost predicate AllKeys(g: KeyGen, rows: Rows) {
    forall k :: k in rows ==> g.isKey(k)
  }

  /** The list these rows stand for. */
  ghost function Content(v: View): seq<Raw> {
    if IsV2(v) then Items(v.v2) else Present(v.v1, NonNegative(LengthOf(v.meta.value)))
  }

  /** A version 1 row set with a recorded length, damaged or not. */
  predicate Recorded(v: View) {
    !IsV2(v) && FormatOf(v.meta.value) == 1 && LengthOf(v.meta.value) >= 0
    && Length in v.meta.value && v.meta.value[Length].Num?
  }

  /** `format_ever_changed` is stored and false. */
  predicate NeverChanged(m: Meta) {
    EverChanged in m && m[EverChanged] == Flag(false)
  }

  /** What an undamaged list looks like. Rows of the format the list is not in may exist:
      scratch rows of an interrupted migration, or version 1 rows it had no time to delete
      (never the latter on a list whose metadata rules out a format change). */
  ghost predicate Healthy(g: KeyGen, v: View) {
    match v.meta
    case None => v.v1 == map[] && v.v2 == map[]
    case Some(m) =>
      if FormatOf(m) == 2 then AllKeys(g, v.v2) && (NeverChanged(m) ==> v.v1 == map[])
      else Recorded(v) && Dense(v.v1, LengthOf(m))
  }

  /** What any list looks like, whatever damage or leftover rows it has: the rows it reads as version 2
      items have accepted keys, or a version 1 length is recorded. */
  ghost predicate Sane(g: KeyGen, v: View) {
    if IsV2(v) then AllKeys(g, v.v2) else Recorded(v)
  }

  /** Every recorded item can be read. */
  ghost predicate NoHoles(v: View) {
    !IsV2(v) ==> Filled(v.v1, NonNegative(LengthOf(v.meta.value)))
  }

  /** The number of items the list claims to have. */
  ghost function LengthIn(v: View): nat {
    if IsV2(v) then |v.v2| else NonNegative(LengthOf(v.meta.value))
  }

  /** What a read of each position finds. */
  ghost function Slots(v: View): (s: seq<Option<Raw>>)
    ensures |s| == LengthIn(v)
  {
    if IsV2(v) then seq(|v.v2|, i requires 0 <= i < |v.v2| => Some(Items(v.v2)[i])) else RowSlots(v.v1, LengthIn(v))
  }

  function RowSlots(v1: map<nat, Raw>, n: nat): (s: seq<Option<Raw>>)
    ensures |s| == n
  {
    seq(n, i requires 0 <= i < n => if i in v1 then Some(v1[i]) else None)
  }

  /** Without holes, reading position by position is reading the list. */
  lemma SlotsAreContent(v: View)
    ensures NoHoles(v) ==> |Content(v)| == LengthIn(v) && forall i :: 0 <= i < LengthIn(v) ==> Slots(v)[i] == Some(Content(v)[i])
    ensures NoHoles(v) <==> forall i :: 0 <= i < LengthIn(v) ==> Slots(v)[i].Some?
  {
    if !IsV2(v) {
      if NoHoles(v) {
        PresentDense(v.v1, LengthIn(v));
      }
      if forall i :: 0 <= i < LengthIn(v) ==> Slots(v)[i].Some? {
        forall i: nat | i < LengthIn(v) ensures i in v.v1 {
          assert Slots(v)[i].Some?;
        }
      }
    }
  }

  lemma {:induction false} PresentDense(v1: map<nat, Raw>, n: nat)
    requires Filled(v1, n)
    ensures |Present(v1, n)| == n
    ensures forall i :: 0 <= i < n ==> Present(v1, n)[i] == v1[i]
  {
    if n > 0 {
      PresentDense(v1, n - 1);
    }
  }

  lemma {:induction false} PresentSame(v1: map<nat, Raw>, w1: map<nat, Raw>, n: nat)
    requires forall i: nat :: i < n ==> (i in v1 <==> i in w1) && (i in v1 ==> v1[i] == w1[i])
    ensures Present(v1, n) == Present(w1, n)
  {
    if n > 0 {
      PresentSame(v1, w1, n - 1);
    }
  }

  /** Two dense row sets that agree with the same list are that list. */
  lemma PresentIs(v1: map<nat, Raw>, s: seq<Raw>)
    requires forall i: nat :: i < |s| ==> i in v1 && v1[i] == s[i]
    ensures Present(v1, |s|) == s
  {
    PresentDense(v1, |s|);
  }
}
