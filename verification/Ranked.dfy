/** Rows keyed by rank: a list is the row values read in rank order. */
module Ranked {
  import opened Options
  import opened Order
  import opened Keys

  /** A stored row value: the JSON text of one list item. */
  type Raw = string
  type Rows = map<Rank, Raw>

  /** `ks` lists exactly the keys in `s`, in ascending order. */
  ghost predicate Arranges(ks: seq<Rank>, s: set<Rank>) {
    && Ascending(ks)
    && |ks| == |s|
    && (forall i :: 0 <= i < |ks| ==> ks[i] in s)
  }

  lemma Distinct(ks: seq<Rank>)
    requires Ascending(ks)
    ensures forall i, j :: 0 <= i < |ks| && 0 <= j < |ks| && ks[i] == ks[j] ==> i == j
  {
    forall i, j | 0 <= i < j < |ks| ensures ks[i] != ks[j] {
      Asymmetric(ks[i], ks[j]);
    }
  }

  lemma TailArranges(ks: seq<Rank>, s: set<Rank>)
    requires Arranges(ks, s) && ks != []
    ensures Arranges(ks[1..], s - {ks[0]})
  {
    Distinct(ks);
  }

  lemma {:induction false} IndexOf(ks: seq<Rank>, s: set<Rank>, x: Rank) returns (i: nat)
    requires Arranges(ks, s) && x in s
    ensures i < |ks| && ks[i] == x
  {
    if ks[0] == x {
      i := 0;
    } else {
      TailArranges(ks, s);
      i := IndexOf(ks[1..], s - {ks[0]}, x);
      i := i + 1;
    }
  }

  /** There is only one ascending arrangement of a set of keys. */
  lemma {:induction false} ArrangementUnique(ks: seq<Rank>, ls: seq<Rank>, s: set<Rank>)
    requires Arranges(ks, s) && Arranges(ls, s)
    ensures ks == ls
    decreases |ks|
  {
    if ks != [] {
      var i := IndexOf(ks, s, ls[0]);
      var j := IndexOf(ls, s, ks[0]);
      if i > 0 && j > 0 { Asymmetric(ks[0], ls[0]); }
      assert ks == [ks[0]] + ks[1..] && ls == [ls[0]] + ls[1..];
      TailArranges(ks, s);
      TailArranges(ls, s);
      ArrangementUnique(ks[1..], ls[1..], s - {ks[0]});
    }
  }

  predicate Fits(ks: seq<Rank>, k: Rank, pos: nat) {
    && pos <= |ks|
    && (pos > 0 ==> Less(ks[pos - 1], k))
    && (pos < |ks| ==> Less(k, ks[pos]))
  }

  function Inserted<T>(s: seq<T>, pos: nat, x: T): seq<T>
    requires pos <= |s|
  {
    s[..pos] + [x] + s[pos..]
  }

  function Deleted<T>(s: seq<T>, pos: nat): seq<T>
    requires pos < |s|
  {
    s[..pos] + s[pos + 1..]
  }

  lemma FitsAll(ks: seq<Rank>, k: Rank, pos: nat)
    requires Ascending(ks) && Fits(ks, k, pos)
    ensures forall i :: 0 <= i < pos ==> Less(ks[i], k)
    ensures forall i :: pos <= i < |ks| ==> Less(k, ks[i])
    ensures k !in ks
  {
    forall i | 0 <= i < pos ensures Less(ks[i], k) {
      if i < pos - 1 { Transitive(ks[i], ks[pos - 1], k); }
    }
    forall i | pos <= i < |ks| ensures Less(k, ks[i]) {
      if i > pos { Transitive(k, ks[pos], ks[i]); }
    }
    Irreflexive(k);
  }

  lemma InsertArranges(ks: seq<Rank>, s: set<Rank>, k: Rank, pos: nat)
    requires Arranges(ks, s) && Fits(ks, k, pos)
    ensures k !in s && Arranges(Inserted(ks, pos, k), s + {k})
  {
    FitsAll(ks, k, pos);
    if k in s {
      var i := IndexOf(ks, s, k);
      assert false;
    }
    var ls := Inserted(ks, pos, k);
    assert forall i :: 0 <= i < |ls| ==> ls[i] == if i < pos then ks[i] else if i == pos then k else ks[i - 1];
  }

  /** Every absent key has a place among the present ones. */
  lemma {:induction false} PlaceOf(ks: seq<Rank>, k: Rank) returns (pos: nat)
    requires Ascending(ks) && k !in ks
    ensures Fits(ks, k, pos)
  {
    if ks == [] {
      pos := 0;
    } else {
      var last := |ks| - 1;
      Total(ks[last], k);
      if Less(ks[last], k) {
        pos := |ks|;
      } else {
        pos := PlaceOf(ks[..last], k);
      }
    }
  }

  lemma {:induction false} ArrangementExists(s: set<Rank>) returns (ks: seq<Rank>)
    ensures Arranges(ks, s)
    decreases |s|
  {
    if s == {} {
      ks := [];
    } else {
      var k :| k in s;
      ks := ArrangementExists(s - {k});
      var pos := PlaceOf(ks, k);
      InsertArranges(ks, s - {k}, k, pos);
      assert s - {k} + {k} == s;
      ks := Inserted(ks, pos, k);
    }
  }

  /** The ascending arrangement of a set of rank keys: what Python's `sorted` returns. */
  ghost function Sorted(s: set<Rank>): (ks: seq<Rank>)
    ensures Arranges(ks, s)
  {
    assert exists ks :: Arranges(ks, s) by {
      var ks := ArrangementExists(s);
    }
    var ks :| Arranges(ks, s);
    ks
  }

  lemma SortedIs(ks: seq<Rank>, s: set<Rank>)
    requires Arranges(ks, s)
    ensures Sorted(s) == ks
  {
    ArrangementUnique(ks, Sorted(s), s);
  }

  function LastOf(ks: seq<Rank>): Option<Rank> {
    if ks == [] then None else Some(ks[|ks| - 1])
  }

  /** The list a set of rows stands for. */
  ghost function Items(m: Rows): (items: seq<Raw>)
    ensures |items| == |m|
    ensures forall i :: 0 <= i < |items| ==> items[i] == m[Sorted(m.Keys)[i]]
  {
    var ks := Sorted(m.Keys);
    seq(|ks|, i requires 0 <= i < |ks| => m[ks[i]])
  }

  /** A new row between its neighbours inserts exactly there. */
  lemma InsertRow(m: Rows, k: Rank, v: Raw, pos: nat)
    requires Fits(Sorted(m.Keys), k, pos)
    ensures k !in m
    ensures Sorted(m[k := v].Keys) == Inserted(Sorted(m.Keys), pos, k)
    ensures Items(m[k := v]) == Inserted(Items(m), pos, v)
  {
    var ks := Sorted(m.Keys);
    InsertArranges(ks, m.Keys, k, pos);
    assert m[k := v].Keys == m.Keys + {k};
    SortedIs(Inserted(ks, pos, k), m.Keys + {k});
    var a, b := Items(m[k := v]), Inserted(Items(m), pos, v);
    forall i | 0 <= i < |a| ensures a[i] == b[i] {
      assert a[i] == m[k := v][Inserted(ks, pos, k)[i]];
    }
  }

  lemma DeleteRow(m: Rows, pos: nat)
    requires pos < |m|
    ensures Sorted(m.Keys)[pos] in m
    ensures Sorted((m - {Sorted(m.Keys)[pos]}).Keys) == Deleted(Sorted(m.Keys), pos)
    ensures Items(m - {Sorted(m.Keys)[pos]}) == Deleted(Items(m), pos)
  {
    var ks := Sorted(m.Keys);
    var k := ks[pos];
    Distinct(ks);
    var ds := Deleted(ks, pos);
    assert forall i :: 0 <= i < |ds| ==> ds[i] == ks[if i < pos then i else i + 1];
    assert (m - {k}).Keys == m.Keys - {k};
    SortedIs(ds, m.Keys - {k});
    var a, b := Items(m - {k}), Deleted(Items(m), pos);
    forall i | 0 <= i < |a| ensures a[i] == b[i] {
      assert a[i] == (m - {k})[ds[i]];
    }
  }

  lemma UpdateRow(m: Rows, pos: nat, v: Raw)
    requires pos < |m|
    ensures Sorted(m.Keys)[pos] in m
    ensures Sorted(m[Sorted(m.Keys)[pos] := v].Keys) == Sorted(m.Keys)
    ensures Items(m[Sorted(m.Keys)[pos] := v]) == Items(m)[pos := v]
  {
    var ks := Sorted(m.Keys);
    Distinct(ks);
    assert m[ks[pos] := v].Keys == m.Keys;
  }

  /** The sort every rank read performs. */
  method SortKeys(s: set<Rank>) returns (ks: seq<Rank>)
    ensures ks == Sorted(s)
  {
    ks := [];
    var todo := s;
    while todo != {}
      invariant todo <= s && Arranges(ks, s - todo)
      decreases |todo|
    {
      var k :| k in todo;
      var pos := 0;
      while pos < |ks| && Less(ks[pos], k)
        invariant pos <= |ks| && (pos > 0 ==> Less(ks[pos - 1], k))
      {
        pos := pos + 1;
      }
      if pos < |ks| { Total(k, ks[pos]); }
      InsertArranges(ks, s - todo, k, pos);
      ks := Inserted(ks, pos, k);
      todo := todo - {k};
      assert s - todo == s - (todo + {k}) + {k};
    }
    assert s - todo == s;
    SortedIs(ks, s);
  }

  // ---- the bag of values, for counting arguments ----

  ghost function Bag(m: Rows): multiset<Raw> {
    multiset(Items(m))
  }

  lemma BagOfInserted<T>(s: seq<T>, pos: nat, x: T)
    requires pos <= |s|
    ensures multiset(Inserted(s, pos, x)) == multiset(s) + multiset{x}
  {
    assert s == s[..pos] + s[pos..];
  }

  lemma BagOfDeleted<T>(s: seq<T>, pos: nat)
    requires pos < |s|
    ensures multiset(s) == multiset(Deleted(s, pos)) + multiset{s[pos]}
  {
    assert s == s[..pos] + [s[pos]] + s[pos + 1..];
  }

  lemma BagInsert(m: Rows, k: Rank, v: Raw)
    requires k !in m
    ensures Bag(m[k := v]) == Bag(m) + multiset{v}
  {
    var pos := PlaceOf(Sorted(m.Keys), k);
    InsertRow(m, k, v, pos);
    BagOfInserted(Items(m), pos, v);
  }

  lemma BagDelete(m: Rows, k: Rank)
    requires k in m
    ensures Bag(m) == Bag(m - {k}) + multiset{m[k]}
  {
    var pos := IndexOf(Sorted(m.Keys), m.Keys, k);
    DeleteRow(m, pos);
    BagOfDeleted(Items(m), pos);
  }

  /** Rows written under the keys `ks` in order. */
  ghost function RowsOf(ks: seq<Rank>, vs: seq<Raw>): Rows
    requires |ks| == |vs|
  {
    if ks == [] then map[] else RowsOf(ks[..|ks| - 1], vs[..|ks| - 1])[ks[|ks| - 1] := vs[|ks| - 1]]
  }

  lemma {:induction false} RowsOfItems(ks: seq<Rank>, vs: seq<Raw>)
    requires |ks| == |vs| && Ascending(ks)
    ensures Sorted(RowsOf(ks, vs).Keys) == ks && Items(RowsOf(ks, vs)) == vs
  {
    if ks == [] {
      SortedIs([], {});
    } else {
      var n := |ks| - 1;
      RowsOfItems(ks[..n], vs[..n]);
      InsertRow(RowsOf(ks[..n], vs[..n]), ks[n], vs[n], n);
      assert ks == Inserted(ks[..n], n, ks[n]);
      assert vs == Inserted(vs[..n], n, vs[n]);
    }
  }
}
