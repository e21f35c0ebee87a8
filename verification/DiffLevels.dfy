/** Registering a change with subscriptions at other levels: the change is cut down to, or
    wrapped up to, the part of the tree each subscription watches. */
module DiffLevels {
  import opened Options
  import opened JsonText

  /** A place below a target: empty strings are absent parts, a resource has a subtarget. */
  datatype Place = Place(subtarget: string, resource: string)

  predicate WellFormed(p: Place) {
    p.resource != "" ==> p.subtarget != ""
  }

  function Path(p: Place): seq<string> {
    if p.subtarget == "" then [] else if p.resource == "" then [p.subtarget] else [p.subtarget, p.resource]
  }

  /** What a blob says: its JSON value, or itself as text. */
  function Meaning(c: Codec, blob: string): Json {
    var j := c.loads(blob);
    if j.Some? then j.value else JText(blob)
  }

  /** `j[k]`, where only an object with that key has one. */
  function Member(j: Json, k: string): Option<Json> {
    if j.JObject? && k in j.fields then Some(j.fields[k]) else None
  }

  /** The value at a path, and a tree with only a value at a path. */
  function Part(j: Json, path: seq<string>): Option<Json> {
    if path == [] then Some(j)
    else
      var m := Member(j, path[0]);
      if m.None? then None else Part(m.value, path[1..])
  }

  function Nest(path: seq<string>, j: Json): Json {
    if path == [] then j else JObject(map[path[0] := Nest(path[1..], j)])
  }

  /** What a subscription at `at` is owed of a change `blob` at `from`: put the change where it
      belongs, and look where the subscription looks. */
  function Owed(c: Codec, from: Place, blob: string, at: Place): Option<Json> {
    Part(Nest(Path(from), Meaning(c, blob)), Path(at))
  }

  // ---- laws of cutting and wrapping ----

  lemma {:induction false} PartAppend(j: Json, p: seq<string>, q: seq<string>)
    ensures Part(j, p + q) == if Part(j, p).None? then None else Part(Part(j, p).value, q)
  {
    if p == [] {
      assert p + q == q;
    } else {
      assert (p + q)[0] == p[0] && (p + q)[1..] == p[1..] + q;
      if Member(j, p[0]).Some? {
        PartAppend(Member(j, p[0]).value, p[1..], q);
      }
    }
  }

  lemma {:induction false} PartOfNest(p: seq<string>, q: seq<string>, j: Json)
    ensures Part(Nest(p + q, j), p) == Some(Nest(q, j))
  {
    if p == [] {
      assert p + q == q;
    } else {
      assert (p + q)[0] == p[0] && (p + q)[1..] == p[1..] + q;
      PartOfNest(p[1..], q, j);
    }
  }

  /** A change seen from a higher level contains exactly what is seen from a lower one. */
  lemma LevelsAgree(c: Codec, from: Place, blob: string, high: Place, low: Place, rest: seq<string>)
    requires Path(low) == Path(high) + rest
    ensures Owed(c, from, blob, low)
         == (var h := Owed(c, from, blob, high); if h.None? then None else Part(h.value, rest))
  {
    PartAppend(Nest(Path(from), Meaning(c, blob)), Path(high), rest);
  }

  // ---- what the code sends ----

  /** The text registered with one subscription, if any: the five branches of the loop. */
  function Relevel(c: Codec, from: Place, blob: string, at: Place): Option<string> {
    if from.subtarget != "" && at.subtarget != "" && at.subtarget != from.subtarget then None
    else if from.resource != "" && at.resource != "" && at.resource != from.resource then None
    else if (from.resource == "" || from.subtarget == "") && at.subtarget != "" && at.resource != "" then
      Dumped(c, CutTwice(c, from, blob, at))
    else if from.resource != "" && at.resource == "" then
      var inner := JObject(map[from.resource := Meaning(c, blob)]);
      Some(c.dumps(if at.subtarget == "" then JObject(map[from.subtarget := inner]) else inner))
    else if from.subtarget == "" && at.subtarget != "" then
      Dumped(c, if c.loads(blob).None? then None else Member(c.loads(blob).value, at.subtarget))
    else if from.subtarget != "" && at.subtarget == "" then
      Some(c.dumps(JObject(map[from.subtarget := Meaning(c, blob)])))
    else Some(blob)
  }

  function CutTwice(c: Codec, from: Place, blob: string, at: Place): Option<Json> {
    var j := c.loads(blob);
    if j.None? then None
    else if from.subtarget != "" then Member(j.value, at.resource)
    else
      var m := Member(j.value, at.subtarget);
      if m.None? then None else Member(m.value, at.resource)
  }

  function Dumped(c: Codec, j: Option<Json>): Option<string> {
    if j.None? then None else Some(c.dumps(j.value))
  }

  lemma PartOne(j: Json, k: string)
    ensures Part(j, [k]) == Member(j, k)
  {
    if Member(j, k).Some? {
      assert [k][1..] == [];
    }
  }

  lemma PartTwo(j: Json, k: string, l: string)
    ensures Part(j, [k, l]) == if Member(j, k).None? then None else Member(Member(j, k).value, l)
  {
    if Member(j, k).Some? {
      assert [k, l][1..] == [l];
      PartOne(Member(j, k).value, l);
    }
  }

  lemma NestOne(k: string, j: Json)
    ensures Nest([k], j) == JObject(map[k := j])
  {
    assert [k][1..] == [];
  }

  lemma NestTwo(k: string, l: string, j: Json)
    ensures Nest([k, l], j) == JObject(map[k := JObject(map[l := j])])
  {
    assert [k, l][1..] == [l];
    NestOne(l, j);
  }

  /** Every branch sends what is owed, and nothing is sent exactly when nothing is owed. */
  lemma RelevelSendsWhatIsOwed(c: Codec, from: Place, blob: string, at: Place)
    requires RoundTrips(c) && WellFormed(from) && WellFormed(at)
    ensures Relevel(c, from, blob, at).None? <==> Owed(c, from, blob, at).None?
    ensures Relevel(c, from, blob, at).Some? ==>
              Some(Meaning(c, Relevel(c, from, blob, at).value)) == Owed(c, from, blob, at)
  {
    var j := Meaning(c, blob);
    var whole := Nest(Path(from), j);
    if Path(from) == [] {
      assert whole == j;
    } else if |Path(from)| == 1 {
      NestOne(from.subtarget, j);
    } else {
      NestTwo(from.subtarget, from.resource, j);
    }
    if |Path(at)| == 1 {
      PartOne(whole, at.subtarget);
    } else if |Path(at)| == 2 {
      PartTwo(whole, at.subtarget, at.resource);
    }
  }

  // ---- the loop ----

  /** A subscription's record: where it looks, its sequence number, its stored diffs by number,
      and the callbacks made. */
  datatype Subscription = Subscription(at: Place, sequence: nat, diffs: map<nat, string>, sent: seq<string>)

  /** `add_diff`, then the callback; an empty blob is refused. */
  function Add(s: Subscription, text: Option<string>): Subscription {
    if text.None? || text.value == "" then s
    else s.(sequence := s.sequence + 1, diffs := s.diffs[s.sequence + 1 := text.value], sent := s.sent + [text.value])
  }

  /** The numbers of the stored diffs are exactly 1 to the sequence, and each holds the callback
      made under it. */
  ghost predicate Numbered(s: Subscription) {
    && |s.sent| == s.sequence
    && forall n: nat :: (n in s.diffs <==> 1 <= n <= s.sequence) && (n in s.diffs ==> s.diffs[n] == s.sent[n - 1])
  }

  lemma AddKeepsNumbering(s: Subscription, text: Option<string>)
    requires Numbered(s)
    ensures Numbered(Add(s, text))
  {}

  /** The record after the change: with one more diff, which means exactly what is owed, or as it
      was when nothing is owed (or the change is an empty text at the subscription's own place). */
  ghost predicate GetsOwed(c: Codec, from: Place, blob: string, s: Subscription, s': Subscription) {
    var owed := Owed(c, from, blob, s.at);
    if owed.Some? && !(blob == "" && from == s.at) then
      exists text :: Some(Meaning(c, text)) == owed
                  && s' == s.(sequence := s.sequence + 1, diffs := s.diffs[s.sequence + 1 := text], sent := s.sent + [text])
    else s' == s
  }

  class Actor {
    const codec: Codec
    /** The subscriptions on the target. */
    var subs: seq<Subscription>

    constructor (codec: Codec, subs: seq<Subscription>)
      ensures this.codec == codec && this.subs == subs
    {
      this.codec, this.subs := codec, subs;
    }

    /** Every subscription gets what it is owed of the change, under its next number, and the
        others are left alone. */
    method RegisterDiffs(from: Place, blob: string, suspended: bool)
      requires RoundTrips(codec) && WellFormed(from)
      requires forall i :: 0 <= i < |subs| ==> WellFormed(subs[i].at)
      modifies this`subs
      ensures |subs| == |old(subs)|
      ensures suspended ==> subs == old(subs)
      ensures (forall i :: 0 <= i < |old(subs)| ==> Numbered(old(subs)[i])) ==> forall i :: 0 <= i < |subs| ==> Numbered(subs[i])
      ensures !suspended ==> forall i :: 0 <= i < |subs| ==> GetsOwed(codec, from, blob, old(subs)[i], subs[i])
    {
      if subs == [] || suspended {
        return;
      }
      var i := 0;
      while i < |subs|
        invariant i <= |subs| == |old(subs)|
        invariant forall k :: 0 <= k < i ==> GetsOwed(codec, from, blob, old(subs)[k], subs[k])
        invariant forall k :: i <= k < |subs| ==> subs[k] == old(subs)[k]
        invariant (forall k :: 0 <= k < |subs| ==> Numbered(old(subs)[k])) ==> forall k :: 0 <= k < |subs| ==> Numbered(subs[k])
      {
        AddedIsOwed(codec, from, blob, subs[i]);
        var text := Relevel(codec, from, blob, subs[i].at);
        if Numbered(subs[i]) {
          AddKeepsNumbering(subs[i], text);
        }
        subs := subs[i := Add(subs[i], text)];
        i := i + 1;
      }
    }
  }

  lemma AddedIsOwed(c: Codec, from: Place, blob: string, s: Subscription)
    requires RoundTrips(c) && WellFormed(from) && WellFormed(s.at)
    ensures GetsOwed(c, from, blob, s, Add(s, Relevel(c, from, blob, s.at)))
  {
    RelevelSendsWhatIsOwed(c, from, blob, s.at);
  }
}
