/** The stored rows of one list, changed one atomic row operation at a time. */
module RowStore {
  import opened Options
  import opened Keys
  import opened Ranked
  import opened ListModel

  class Store {
    var db: View
    /** Every state the rows have been in, oldest first: what a crash can leave behind. */
    var history: seq<View>

    constructor (v: View)
      ensures db == v && history == [v]
    {
      db := v;
      history := [v];
    }

    method PutMeta(m: Meta)
      modifies this
      ensures db == old(db).(meta := Some(m)) && history == old(history) + [db]
    {
      db := db.(meta := Some(m));
      history := history + [db];
    }

    method DropMeta()
      modifies this
      ensures db == old(db).(meta := None) && history == old(history) + [db]
    {
      db := db.(meta := None);
      history := history + [db];
    }

    /** `set_if_value_equals` on the metadata row. */
    method CasMeta(expected: Meta, m: Meta) returns (ok: bool)
      modifies this
      ensures ok == (old(db).meta == Some(expected))
      ensures db == if ok then old(db).(meta := Some(m)) else old(db)
      ensures history == old(history) + [db]
    {
      ok := db.meta == Some(expected);
      if ok { db := db.(meta := Some(m)); }
      history := history + [db];
    }

    method Put1(i: nat, value: Raw)
      modifies this
      ensures db == old(db).(v1 := old(db).v1[i := value]) && history == old(history) + [db]
    {
      db := db.(v1 := db.v1[i := value]);
      history := history + [db];
    }

    method Delete1(i: nat)
      modifies this
      ensures db == old(db).(v1 := old(db).v1 - {i}) && history == old(history) + [db]
    {
      db := db.(v1 := db.v1 - {i});
      history := history + [db];
    }

    method Put2(k: Rank, value: Raw)
      modifies this
      ensures db == old(db).(v2 := old(db).v2[k := value]) && history == old(history) + [db]
    {
      db := db.(v2 := db.v2[k := value]);
      history := history + [db];
    }

    method Delete2(k: Rank)
      modifies this
      ensures db == old(db).(v2 := old(db).v2 - {k}) && history == old(history) + [db]
    {
      db := db.(v2 := db.v2 - {k});
      history := history + [db];
    }

    /** `create_if_not_exists` on an item row. */
    method Create2(k: Rank, value: Raw) returns (ok: bool)
      modifies this
      ensures ok == (k !in old(db).v2)
      ensures db == if ok then old(db).(v2 := old(db).v2[k := value]) else old(db)
      ensures history == old(history) + [db]
    {
      ok := k !in db.v2;
      if ok { db := db.(v2 := db.v2[k := value]); }
      history := history + [db];
    }

    /** `delete_if_value_equals` on an item row. */
    method DeleteIf2(k: Rank, value: Raw) returns (ok: bool)
      modifies this
      ensures ok == (k in old(db).v2 && old(db).v2[k] == value)
      ensures db == if ok then old(db).(v2 := old(db).v2 - {k}) else old(db)
      ensures history == old(history) + [db]
    {
      ok := k in db.v2 && db.v2[k] == value;
      if ok { db := db.(v2 := db.v2 - {k}); }
      history := history + [db];
    }

    /** `set_if_value_equals` on an item row. */
    method SetIf2(k: Rank, expected: Raw, value: Raw) returns (ok: bool)
      modifies this
      ensures ok == (k in old(db).v2 && old(db).v2[k] == expected)
      ensures db == if ok then old(db).(v2 := old(db).v2[k := value]) else old(db)
      ensures history == old(history) + [db]
    {
      ok := k in db.v2 && db.v2[k] == expected;
      if ok { db := db.(v2 := db.v2[k := value]); }
      history := history + [db];
    }
  }

  /** `p` holds of every state the store went through since it was at `before`. */
  ghost predicate Since(before: seq<View>, after: seq<View>, p: View -> bool) {
    before <= after && forall i :: |before| <= i < |after| ==> p(after[i])
  }
}
