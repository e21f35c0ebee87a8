/** JSON values, what the code needs of the JSON library, and a concrete text form that has it. */
module JsonText {
  import opened Options
  import opened Ranked

  predicate IsNumberChar(c: char) {
    '0' <= c <= '9' || c in "+-.eE"
  }

  predicate IsNumeral(s: string) {
    s != "" && ('0' <= s[0] <= '9' || s[0] == '-') && forall i :: 0 <= i < |s| ==> IsNumberChar(s[i])
  }

  /** A number is known by its text. */
  type Numeral = s: string | IsNumeral(s) witness "0"

  datatype Json = JNull | JBool(b: bool) | JNumber(text: Numeral) | JText(s: string)
                | JList(items: seq<Json>) | JObject(fields: map<string, Json>)

  /** `json.dumps` and `json.loads`; the latter refuses text that is not JSON. */
  datatype Codec = Codec(dumps: Json -> string, loads: string -> Option<Json>)

  ghost predicate RoundTrips(c: Codec) {
    forall j :: c.loads(c.dumps(j)) == Some(j) && c.dumps(j) != ""
  }

  // ---- a concrete codec, so that `RoundTrips` is not an empty assumption ----

  /** The text between the quotes, and the closing quote. */
  function Quoted(s: string): string {
    if s == "" then "\""
    else if s[0] == '"' || s[0] == '\\' then ['\\', s[0]] + Quoted(s[1..])
    else [s[0]] + Quoted(s[1..])
  }

  /** Compact JSON with sorted keys. */
  ghost function Print(j: Json): string
    decreases j, 1, 0
  {
    match j
    case JNull => "null"
    case JBool(b) => if b then "true" else "false"
    case JNumber(n) => n
    case JText(s) => "\"" + Quoted(s)
    case JList(items) => "[" + Elements(j, 0)
    case JObject(fields) => "{" + Members(j, Sorted(fields.Keys), 0)
  }

  ghost function Elements(j: Json, i: nat): string
    requires j.JList? && i <= |j.items|
    decreases j, 0, |j.items| - i
  {
    if i == |j.items| then "]" else Comma(i) + (Print(j.items[i]) + Elements(j, i + 1))
  }

  ghost function Members(j: Json, ks: seq<string>, i: nat): string
    requires j.JObject? && i <= |ks| && forall k :: 0 <= k < |ks| ==> ks[k] in j.fields
    decreases j, 0, |ks| - i
  {
    if i == |ks| then "}"
    else Comma(i) + ("\"" + (Quoted(ks[i]) + (":" + (Print(j.fields[ks[i]]) + Members(j, ks, i + 1)))))
  }

  function Comma(i: nat): string {
    if i == 0 then "" else ","
  }

  /** What may follow a value. */
  predicate Follows(r: string) {
    r == "" || r[0] == ',' || r[0] == ']' || r[0] == '}'
  }

  lemma Cancel(p: string, x: string, y: string)
    requires p + x == p + y
    ensures x == y
  {
    assert (p + x)[|p|..] == x && (p + y)[|p|..] == y;
  }

  lemma Regroup(p: string, q: string, r: string)
    ensures (p + q) + r == p + (q + r)
  {}

  lemma {:induction false} QuotedEnds(s: string, r: string, s': string, r': string)
    requires Quoted(s) + r == Quoted(s') + r'
    ensures s == s' && r == r'
  {
    var t, t' := Quoted(s) + r, Quoted(s') + r';
    assert s != "" ==> s == [s[0]] + s[1..];
    assert s' != "" ==> s' == [s'[0]] + s'[1..];
    if s == "" || s' == "" {
      assert t[0] == t'[0];
      assert t[1..] == t'[1..];
    } else {
      var e, e' := s[0] == '"' || s[0] == '\\', s'[0] == '"' || s'[0] == '\\';
      assert t[0] == t'[0] && e == e';
      if e {
        assert t[1] == t'[1] && t[2..] == Quoted(s[1..]) + r && t'[2..] == Quoted(s'[1..]) + r';
      } else {
        assert t[1..] == Quoted(s[1..]) + r && t'[1..] == Quoted(s'[1..]) + r';
      }
      QuotedEnds(s[1..], r, s'[1..], r');
    }
  }

  lemma NumeralReach(n: string, r: string, n': Numeral, r': string)
    requires n + r == n' + r' && Follows(r)
    ensures |n'| <= |n|
  {
    assert |n + r| == |n' + r'| && forall i :: 0 <= i < |n'| ==> (n + r)[i] == n'[i];
    assert r != "" ==> (n + r)[|n|] == r[0];
  }

  lemma NumeralEnds(n: Numeral, r: string, n': Numeral, r': string)
    requires n + r == n' + r' && Follows(r) && Follows(r')
    ensures n == n' && r == r'
  {
    NumeralReach(n, r, n', r');
    NumeralReach(n', r', n, r);
    assert (n + r)[..|n|] == n && (n' + r')[..|n|] == n';
    Cancel(n, r, r');
  }

  lemma MemberText(p: string, k: string, v: string, k': string, v': string)
    requires p + (Quoted(k) + (":" + v)) == p + (Quoted(k') + (":" + v'))
    ensures k == k' && v == v'
  {
    Cancel(p, Quoted(k) + (":" + v), Quoted(k') + (":" + v'));
    QuotedEnds(k, ":" + v, k', ":" + v');
    Cancel(":", v, v');
  }

  /** The first character tells what kind of value follows. */
  lemma HeadOf(j: Json)
    ensures Print(j) != "" && Print(j)[0] !in ",]}"
    ensures var c := Print(j)[0];
            && (j.JNull? <==> c == 'n') && (j == JBool(true) <==> c == 't') && (j == JBool(false) <==> c == 'f')
            && (j.JText? <==> c == '"') && (j.JList? <==> c == '[') && (j.JObject? <==> c == '{')
  {}

  /** A text has one reading: the value it starts with, and the rest. */
  lemma {:induction false} PrintEnds(j: Json, r: string, j': Json, r': string)
    requires Print(j) + r == Print(j') + r' && Follows(r) && Follows(r')
    ensures j == j' && r == r'
    decreases j, 1, 0
  {
    HeadOf(j);
    HeadOf(j');
    assert (Print(j) + r)[0] == (Print(j') + r')[0];
    match j
    case JNumber(n) => NumeralEnds(n, r, j'.text, r');
    case JText(s) =>
      Regroup("\"", Quoted(s), r);
      Regroup("\"", Quoted(j'.s), r');
      Cancel("\"", Quoted(s) + r, Quoted(j'.s) + r');
      QuotedEnds(s, r, j'.s, r');
    case JList(items) =>
      Regroup("[", Elements(j, 0), r);
      Regroup("[", Elements(j', 0), r');
      Cancel("[", Elements(j, 0) + r, Elements(j', 0) + r');
      ElementsEnd(j, r, j', r', 0);
    case JObject(fields) =>
      var ks, ks' := Sorted(fields.Keys), Sorted(j'.fields.Keys);
      Regroup("{", Members(j, ks, 0), r);
      Regroup("{", Members(j', ks', 0), r');
      Cancel("{", Members(j, ks, 0) + r, Members(j', ks', 0) + r');
      MembersEnd(j, ks, r, j', ks', r', 0);
      SameFields(fields, j'.fields);
    case _ => Cancel(Print(j), r, r');
  }

  lemma {:induction false} ElementsEnd(j: Json, r: string, j': Json, r': string, i: nat)
    requires j.JList? && j'.JList? && i <= |j.items| && i <= |j'.items|
    requires Elements(j, i) + r == Elements(j', i) + r'
    ensures |j.items| == |j'.items| && j.items[i..] == j'.items[i..] && r == r'
    decreases j, 0, |j.items| - i
  {
    if i == |j.items| {
      ElementsHead(j, r, i);
      ElementsHead(j', r', i);
      Cancel("]", r, r');
    } else {
      ElementStep(j, r, j', r', i);
      PrintEnds(j.items[i], Elements(j, i + 1) + r, j'.items[i], Elements(j', i + 1) + r');
      ElementsEnd(j, r, j', r', i + 1);
      assert j.items[i..] == [j.items[i]] + j.items[i + 1..] && j'.items[i..] == [j'.items[i]] + j'.items[i + 1..];
    }
  }

  lemma ElementStep(j: Json, r: string, j': Json, r': string, i: nat)
    requires j.JList? && j'.JList? && i < |j.items| && i <= |j'.items|
    requires Elements(j, i) + r == Elements(j', i) + r'
    ensures i < |j'.items|
    ensures var rest, rest' := Elements(j, i + 1) + r, Elements(j', i + 1) + r';
            Follows(rest) && Follows(rest') && Print(j.items[i]) + rest == Print(j'.items[i]) + rest'
  {
    ElementsHead(j, r, i);
    ElementsHead(j', r', i);
    ElementsHead(j, r, i + 1);
    ElementsHead(j', r', i + 1);
    Cancel(Comma(i), Print(j.items[i]) + (Elements(j, i + 1) + r), Print(j'.items[i]) + (Elements(j', i + 1) + r'));
  }

  lemma ElementsHead(j: Json, r: string, i: nat)
    requires j.JList? && i <= |j.items|
    ensures var t := Elements(j, i) + r;
            t != "" && (t[0] == ']' <==> i == |j.items|) && (i > 0 ==> Follows(t))
    ensures i < |j.items| ==> Elements(j, i) + r == Comma(i) + (Print(j.items[i]) + (Elements(j, i + 1) + r))
  {
    if i < |j.items| {
      HeadOf(j.items[i]);
      Regroup(Comma(i), Print(j.items[i]) + Elements(j, i + 1), r);
      Regroup(Print(j.items[i]), Elements(j, i + 1), r);
    }
  }

  lemma {:induction false} MembersEnd(j: Json, ks: seq<string>, r: string, j': Json, ks': seq<string>, r': string, i: nat)
    requires j.JObject? && j'.JObject? && i <= |ks| && i <= |ks'|
    requires forall k :: 0 <= k < |ks| ==> ks[k] in j.fields
    requires forall k :: 0 <= k < |ks'| ==> ks'[k] in j'.fields
    requires Members(j, ks, i) + r == Members(j', ks', i) + r'
    ensures |ks| == |ks'| && r == r'
    ensures forall k :: i <= k < |ks| ==> ks[k] == ks'[k] && j.fields[ks[k]] == j'.fields[ks'[k]]
    decreases j, 0, |ks| - i
  {
    if i == |ks| {
      MembersHead(j, ks, r, i);
      MembersHead(j', ks', r', i);
      Cancel("}", r, r');
    } else {
      MemberStep(j, ks, r, j', ks', r', i);
      PrintEnds(j.fields[ks[i]], Members(j, ks, i + 1) + r, j'.fields[ks'[i]], Members(j', ks', i + 1) + r');
      MembersEnd(j, ks, r, j', ks', r', i + 1);
    }
  }

  lemma MemberStep(j: Json, ks: seq<string>, r: string, j': Json, ks': seq<string>, r': string, i: nat)
    requires j.JObject? && j'.JObject? && i < |ks| && i <= |ks'|
    requires forall k :: 0 <= k < |ks| ==> ks[k] in j.fields
    requires forall k :: 0 <= k < |ks'| ==> ks'[k] in j'.fields
    requires Members(j, ks, i) + r == Members(j', ks', i) + r'
    ensures i < |ks'| && ks[i] == ks'[i]
    ensures var rest, rest' := Members(j, ks, i + 1) + r, Members(j', ks', i + 1) + r';
            Follows(rest) && Follows(rest') && Print(j.fields[ks[i]]) + rest == Print(j'.fields[ks'[i]]) + rest'
  {
    MembersHead(j, ks, r, i);
    MembersHead(j', ks', r', i);
    MembersHead(j, ks, r, i + 1);
    MembersHead(j', ks', r', i + 1);
    MemberText(Comma(i) + "\"", ks[i], Print(j.fields[ks[i]]) + (Members(j, ks, i + 1) + r),
               ks'[i], Print(j'.fields[ks'[i]]) + (Members(j', ks', i + 1) + r'));
  }

  lemma MembersHead(j: Json, ks: seq<string>, r: string, i: nat)
    requires j.JObject? && i <= |ks| && forall k :: 0 <= k < |ks| ==> ks[k] in j.fields
    ensures var t := Members(j, ks, i) + r;
            t != "" && (t[0] == '}' <==> i == |ks|) && (i > 0 ==> Follows(t))
    ensures i < |ks| ==> (var rest := Members(j, ks, i + 1) + r;
                          Members(j, ks, i) + r == (Comma(i) + "\"") + (Quoted(ks[i]) + (":" + (Print(j.fields[ks[i]]) + rest))))
  {
    if i < |ks| {
      var v, more := Print(j.fields[ks[i]]), Members(j, ks, i + 1);
      Regroup(v, more, r);
      Regroup(":", v + more, r);
      Regroup(Quoted(ks[i]), ":" + (v + more), r);
      Regroup("\"", Quoted(ks[i]) + (":" + (v + more)), r);
      Regroup(Comma(i), "\"" + (Quoted(ks[i]) + (":" + (v + more))), r);
      Regroup(Comma(i), "\"", Quoted(ks[i]) + (":" + (v + (more + r))));
    }
  }

  lemma SameFields(m: map<string, Json>, m': map<string, Json>)
    requires var ks, ks' := Sorted(m.Keys), Sorted(m'.Keys);
             |ks| == |ks'| && forall k :: 0 <= k < |ks| ==> ks[k] == ks'[k] && m[ks[k]] == m'[ks'[k]]
    ensures m == m'
  {
    var ks, ks' := Sorted(m.Keys), Sorted(m'.Keys);
    assert ks == ks';
    forall k | k in m || k in m'
      ensures k in m && k in m' && m[k] == m'[k]
    {
      if k in m {
        var i := IndexOf(ks, m.Keys, k);
      } else {
        var i := IndexOf(ks', m'.Keys, k);
      }
    }
  }

  /** Reading a text: the value that prints as it, if there is one. */
  ghost function Read(t: string): Option<Json> {
    if j :| Print(j) == t then Some(j) else None
  }

  ghost function PlainJson(): Codec {
    Codec(j => Print(j), t => Read(t))
  }

  /** The contract can be met. */
  lemma PlainJsonRoundTrips()
    ensures RoundTrips(PlainJson())
  {
    var c := PlainJson();
    forall j
      ensures c.loads(c.dumps(j)) == Some(j) && c.dumps(j) != ""
    {
      HeadOf(j);
      var back := Read(Print(j));
      assert back.Some? && Print(back.value) == Print(j);
      assert Print(back.value) + "" == Print(j) + "";
      PrintEnds(back.value, "", j, "");
    }
  }
}
