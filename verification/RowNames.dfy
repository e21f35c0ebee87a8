/** Row names in the shared property table: which rows a list's reads and deletes select, and
    how the table splits into one independent view per list. */
module RowNames {
  import opened Decimals
  import opened Order
  import opened Keys

  /** The rows lists consist of. */
  datatype Row = MetaRow(name: string) | Item1(name: string, index: nat) | Item2(name: string, rank: Rank)

  predicate Proper(r: Row) {
    r.Item2? ==> IsRank(r.rank)
  }

  function Prefix(name: string): string {
    "list:" + name + "-"
  }

  function Suffix(r: Row): string {
    match r
    case MetaRow(_) => "meta"
    case Item1(_, i) => Decimal(i)
    case Item2(_, rank) => "#" + rank
  }

  function Render(r: Row): string {
    Prefix(r.name) + Suffix(r)
  }

  function Drop(s: string, n: nat): string {
    if n <= |s| then s[n..] else ""
  }

  /** `get_range`: both bounds inclusive. */
  predicate InBytes(row: string, lower: string, upper: string) {
    AtMost(lower, row) && AtMost(row, upper)
  }

  /** `_v1_item_names_in_range`: byte range, then digits only. */
  predicate Own1(name: string, row: string) {
    InBytes(row, Prefix(name) + "0", Prefix(name) + ":") && IsDigits(Drop(row, |Prefix(name)|))
  }

  /** `_v2_item_names_in_range`: byte range, then rank-shaped only. */
  predicate Own2(name: string, row: string) {
    InBytes(row, Prefix(name) + "#", Prefix(name) + "$") && IsRank(Drop(row, |Prefix(name)| + 1))
  }

  /** The filter used on a whole-partition dump. */
  predicate Dumped2(name: string, row: string) {
    Prefix(name) + "#" <= row && IsRank(Drop(row, |Prefix(name)| + 1))
  }

  predicate LooksLikeMeta(row: string) {
    "list:" <= row && |row| >= 5 && row[|row| - 5..] == "-meta"
  }

  // ---- the last dash decides ----

  predicate NoDash(s: string) {
    forall k :: 0 <= k < |s| ==> s[k] != '-'
  }

  lemma SuffixHasNoDash(r: Row)
    requires Proper(r)
    ensures NoDash(Suffix(r)) && Suffix(r) != ""
    ensures r.MetaRow? ==> Suffix(r)[0] == 'm'
    ensures r.Item1? ==> IsDigits(Suffix(r)) && Parse(Suffix(r)) == r.index
    ensures r.Item2? ==> Suffix(r)[0] == '#' && Suffix(r)[1..] == r.rank
  {
    if r.Item1? { DecimalParses(r.index); }
  }

  lemma AfterDash(a: string, s: string)
    requires NoDash(s)
    ensures forall k :: |a| < k < |a + "-" + s| ==> (a + "-" + s)[k] != '-'
  {
    forall k | |a| < k < |a + "-" + s| ensures (a + "-" + s)[k] != '-' {
      assert (a + "-" + s)[k] == s[k - |a| - 1];
    }
  }

  lemma SplitAtLastDash(a: string, s: string, b: string, t: string)
    requires a + "-" + s == b + "-" + t && NoDash(s) && NoDash(t)
    ensures a == b && s == t
  {
    var u := a + "-" + s;
    AfterDash(a, s);
    AfterDash(b, t);
    assert u[|a|] == '-' && u[|b|] == '-';
    assert a == u[..|a|] && b == u[..|b|];
    assert s == u[|a| + 1..] && t == u[|b| + 1..];
  }

  lemma PrefixSplit(name: string, s: string, name': string, t: string)
    requires Prefix(name) + s == Prefix(name') + t && NoDash(s) && NoDash(t)
    ensures name == name' && s == t
  {
    assert Prefix(name) + s == ("list:" + name) + "-" + s;
    assert Prefix(name') + t == ("list:" + name') + "-" + t;
    SplitAtLastDash("list:" + name, s, "list:" + name', t);
    assert name == ("list:" + name)[5..] && name' == ("list:" + name')[5..];
  }

  /** A row name determines its list and its place in it. */
  lemma RenderInjective(r: Row, q: Row)
    requires Proper(r) && Proper(q) && Render(r) == Render(q)
    ensures r == q
  {
    SuffixHasNoDash(r);
    SuffixHasNoDash(q);
    PrefixSplit(r.name, Suffix(r), q.name, Suffix(q));
  }

  // ---- what the byte ranges contain ----

  /** Between `p` + one character and `p` + another, every name starts with `p`. */
  lemma {:induction false} RangeHasPrefix(p: string, a: char, b: char, row: string)
    requires InBytes(row, p + [a], p + [b])
    ensures p <= row && InBytes(row[|p|..], [a], [b])
  {
    if p == "" {
      assert p + [a] == [a] && p + [b] == [b] && row[0..] == row;
    } else {
      assert (p + [a])[1..] == p[1..] + [a] && (p + [b])[1..] == p[1..] + [b];
      assert row != "" && row[0] == p[0] && row == [row[0]] + row[1..];
      assert p + [a] == [p[0]] + (p[1..] + [a]) && p + [b] == [p[0]] + (p[1..] + [b]);
      RangeHasPrefix(p[1..], a, b, row[1..]);
      assert row[1..][|p[1..]|..] == row[|p|..];
      assert p == [p[0]] + p[1..] && p[1..] == row[1..][..|p[1..]|];
      assert row[..|p|] == [row[0]] + row[1..][..|p[1..]|];
    }
  }

  lemma PrefixInRange(p: string, a: char, b: char, s: string)
    requires InBytes(s, [a], [b])
    ensures InBytes(p + s, p + [a], p + [b])
  {
    CommonPrefix(p, [a], s);
    CommonPrefix(p, s, [b]);
  }

  lemma Own1Is(name: string, row: string)
    ensures Own1(name, row) <==> Prefix(name) <= row && IsDigits(row[|Prefix(name)|..])
  {
    var p := Prefix(name);
    assert p + "0" == p + ['0'] && p + ":" == p + [':'];
    if Own1(name, row) { RangeHasPrefix(p, '0', ':', row); }
    if p <= row && IsDigits(row[|p|..]) {
      var s := row[|p|..];
      assert row == p + s;
      assert s == "0" || Less(['0'], s) by { if s[0] == '0' && |s| == 1 { assert s == "0"; } }
      assert Less(s, [':']);
      PrefixInRange(p, '0', ':', s);
    }
  }

  lemma HashRange(s: string)
    requires InBytes(s, ['#'], ['$'])
    ensures s == "$" || (s != "" && s[0] == '#')
  {
    assert Less(s, ['$']) ==> s == "" || s[0] < '$' || Less(s[1..], "") by { assert ['$'][1..] == ""; }
    if s != "$" {
      assert '#' <= s[0] < '$';
      assert '#' as int == 35 && '$' as int == 36 && s[0] as int == 35;
      assert s[0] == 35 as char;
    }
  }

  lemma Own2Is(name: string, row: string)
    ensures Own2(name, row) <==> Prefix(name) + "#" <= row && IsRank(row[|Prefix(name)| + 1..])
    ensures Own2(name, row) <==> Dumped2(name, row)
  {
    var p := Prefix(name);
    assert p + "#" == p + ['#'] && p + "$" == p + ['$'];
    if Own2(name, row) {
      RangeHasPrefix(p, '#', '$', row);
      var s := row[|p|..];
      assert Drop(row, |p| + 1) == Drop(s, 1);
      HashRange(s);
      assert row == p + s && s == "#" + s[1..];
      assert (p + "#")[..|p|] == p && row[..|p| + 1] == p + "#";
    }
    if p + "#" <= row && IsRank(row[|p| + 1..]) {
      var s := "#" + row[|p| + 1..];
      assert row == p + s;
      assert Less(['#'], s) && Less(s, ['$']);
      PrefixInRange(p, '#', '$', s);
    }
  }

  /** For any two lists, whatever characters their names contain: the version 1 range with its
      digit filter selects exactly the named list's own version 1 rows ... */
  lemma Isolation1(name: string, r: Row)
    requires Proper(r)
    ensures Own1(name, Render(r)) <==> r.Item1? && r.name == name
  {
    var row := Render(r);
    Own1Is(name, row);
    SuffixHasNoDash(r);
    if Own1(name, row) {
      var s := row[|Prefix(name)|..];
      assert row == Prefix(name) + s;
      PrefixSplit(name, s, r.name, Suffix(r));
    }
    if r.Item1? && r.name == name {
      assert row[|Prefix(name)|..] == Suffix(r);
    }
  }

  /** ... and the version 2 range with its rank filter exactly its version 2 rows. */
  lemma Isolation2(name: string, r: Row)
    requires Proper(r)
    ensures Own2(name, Render(r)) <==> r.Item2? && r.name == name
  {
    if Own2(name, Render(r)) {
      OwnedIsItem2(name, r);
    }
    if r.Item2? && r.name == name {
      Item2IsOwned(r);
    }
  }

  lemma OwnedIsItem2(name: string, r: Row)
    requires Proper(r) && Own2(name, Render(r))
    ensures r.Item2? && r.name == name
  {
    var row := Render(r);
    Own2Is(name, row);
    SuffixHasNoDash(r);
    var s := "#" + row[|Prefix(name)| + 1..];
    assert row == Prefix(name) + s;
    PrefixSplit(name, s, r.name, Suffix(r));
    assert s[0] == '#';
  }

  lemma Item2IsOwned(r: Row)
    requires Proper(r) && r.Item2?
    ensures Own2(r.name, Render(r))
  {
    var row := Render(r);
    Own2Is(r.name, row);
    assert row == (Prefix(r.name) + "#") + r.rank;
    assert row[|Prefix(r.name)| + 1..] == r.rank;
  }

  /** `list_all`: the rows that look like metadata are the metadata rows, and cutting off the
      fixed parts gives the list's name back. */
  lemma MetaNamesInvert(r: Row)
    requires Proper(r)
    ensures LooksLikeMeta(Render(r)) <==> r.MetaRow?
    ensures r.MetaRow? ==> Render(r)[5..|Render(r)| - 5] == r.name
  {
    if r.MetaRow? {
      MetaRowLooks(r.name);
    } else if LooksLikeMeta(Render(r)) {
      OnlyMetaLooks(r);
    }
  }

  lemma MetaRowLooks(name: string)
    ensures LooksLikeMeta(Render(MetaRow(name))) && Render(MetaRow(name))[5..|name| + 5] == name
    ensures |Render(MetaRow(name))| == |name| + 10
  {
    var row := Render(MetaRow(name));
    assert row == "list:" + (name + "-meta");
    assert row[..5] == "list:";
    assert row[|row| - 5..] == "-meta";
  }

  lemma OnlyMetaLooks(r: Row)
    requires Proper(r) && LooksLikeMeta(Render(r))
    ensures r.MetaRow?
  {
    var row := Render(r);
    var a := row[..|row| - 5];
    assert row == a + "-meta";
    assert "-meta" == "-" + "meta" && NoDash("meta") && "meta"[0] == 'm';
    assert a + "-meta" == a + "-" + "meta";
    SuffixHasNoDash(r);
    SplitAtLastDash(a, "meta", "list:" + r.name, Suffix(r));
  }

  /** `_v2_last_rank`: when the bytewise greatest row of the range is rank-shaped, its rank is
      the greatest of the list's ranks, however many foreign rows the range holds. */
  lemma GreatestRowIsLastRank(name: string, rows: set<string>, top: string, row: string)
    requires top in rows && Own2(name, top)
    requires forall r :: r in rows && InBytes(r, Prefix(name) + "#", Prefix(name) + "$") ==> AtMost(r, top)
    requires row in rows && Own2(name, row)
    ensures AtMost(Drop(row, |Prefix(name)| + 1), Drop(top, |Prefix(name)| + 1))
  {
    Own2Is(name, top);
    Own2Is(name, row);
    var p := Prefix(name) + "#";
    assert row == p + row[|p|..] && top == p + top[|p|..];
    CommonPrefix(p, row[|p|..], top[|p|..]);
  }
}
