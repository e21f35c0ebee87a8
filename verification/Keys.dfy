/** The fractional-index keys that name version 2 rows: what the list code needs of the
    key library, and a concrete library that provides it. */
module Keys {
  import opened Options
  import opened Order

  type Rank = string

  const RANK_MAX_LEN: nat := 180
  const MAX_RANK_RETRIES: nat := 8

  predicate IsBase62(c: char) {
    '0' <= c <= '9' || 'A' <= c <= 'Z' || 'a' <= c <= 'z'
  }

  /** `_v2_is_rank`: nonempty and drawn from the base-62 alphabet only. */
  predicate IsRank(s: string) {
    s != "" && forall i :: 0 <= i < |s| ==> IsBase62(s[i])
  }

  /** A key library: which strings it accepts as keys, and its deterministic
      `generate_key_between`, where `None` is an open bound. */
  datatype KeyGen = KeyGen(isKey: string -> bool, between: (Option<Rank>, Option<Rank>) -> Rank)

  ghost predicate Bounds(g: KeyGen, lo: Option<Rank>, hi: Option<Rank>) {
    && (lo.Some? ==> g.isKey(lo.value))
    && (hi.Some? ==> g.isKey(hi.value))
    && (lo.Some? && hi.Some? ==> Less(lo.value, hi.value))
  }

  ghost predicate Within(k: Rank, lo: Option<Rank>, hi: Option<Rank>) {
    && (lo.Some? ==> Less(lo.value, k))
    && (hi.Some? ==> Less(k, hi.value))
  }

  /** All that the list code relies on: keys are rank-shaped, and the generated key is a
      key strictly between its bounds. */
  ghost predicate Sound(g: KeyGen) {
    && (forall k :: g.isKey(k) ==> IsRank(k))
    && (forall lo, hi :: Bounds(g, lo, hi) ==>
          g.isKey(g.between(lo, hi)) && Within(g.between(lo, hi), lo, hi))
  }

  function After(g: KeyGen, lo: Option<Rank>): Rank {
    g.between(lo, None)
  }

  /** `generate_n_keys_between(lo, None, n)`: with an open upper bound the library
      repeats "the key after the previous one". */
  function NKeys(g: KeyGen, lo: Option<Rank>, n: nat): (ks: seq<Rank>)
    ensures |ks| == n
    decreases n
  {
    if n == 0 then []
    else
      var k := After(g, lo);
      [k] + NKeys(g, Some(k), n - 1)
  }

  ghost predicate Ascending(ks: seq<Rank>) {
    forall i, j {:trigger Less(ks[i], ks[j])} :: 0 <= i < j < |ks| ==> Less(ks[i], ks[j])
  }

  lemma {:induction false} NKeysAscend(g: KeyGen, lo: Option<Rank>, n: nat)
    requires Sound(g) && Bounds(g, lo, None)
    ensures Ascending(NKeys(g, lo, n))
    ensures forall i :: 0 <= i < n ==> g.isKey(NKeys(g, lo, n)[i])
    ensures forall i :: 0 <= i < n && lo.Some? ==> Less(lo.value, NKeys(g, lo, n)[i])
    decreases n
  {
    if n > 0 {
      var k := After(g, lo);
      var rest := NKeys(g, Some(k), n - 1);
      assert Bounds(g, lo, None);
      NKeysAscend(g, Some(k), n - 1);
      forall i | 0 <= i < n && lo.Some?
        ensures Less(lo.value, NKeys(g, lo, n)[i])
      {
        if i > 0 { Transitive(lo.value, k, rest[i - 1]); }
      }
    }
  }

  /** Each generated key is the key after its predecessor. */
  lemma {:induction false} NKeysStep(g: KeyGen, lo: Option<Rank>, n: nat, i: nat)
    requires i < n
    ensures NKeys(g, lo, n)[i] == After(g, if i == 0 then lo else Some(NKeys(g, lo, n)[i - 1]))
    decreases n
  {
    if i > 0 {
      NKeysStep(g, Some(After(g, lo)), n - 1, i - 1);
    }
  }

  /** How many keys are asked for does not change the first ones. */
  lemma {:induction false} NKeysPrefix(g: KeyGen, lo: Option<Rank>, m: nat, n: nat, i: nat)
    requires i < m && i < n
    ensures NKeys(g, lo, m)[i] == NKeys(g, lo, n)[i]
    decreases i
  {
    if i > 0 {
      NKeysPrefix(g, Some(After(g, lo)), m - 1, n - 1, i - 1);
    }
  }

  // ---- a concrete key library, so that `Sound` is not an empty assumption ----

  /** Base-62 digit strings read as fractions: the last digit is not '0'. */
  predicate IsFraction(s: string) {
    IsRank(s) && s[|s| - 1] != '0'
  }

  /** A fraction below the nonzero fraction `t`. */
  function Below(t: string): (k: string)
    requires IsFraction(t)
    ensures IsFraction(k) && Less(k, t)
  {
    if t[0] == '0' then ['0'] + Below(t[1..]) else "0V"
  }

  /** A fraction strictly between `lo` (possibly empty, for an open bound) and `hi`. */
  function Amid(lo: string, hi: string): (k: string)
    requires (lo == "" || IsFraction(lo)) && IsFraction(hi) && Less(lo, hi)
    ensures IsFraction(k) && Less(lo, k) && Less(k, hi)
  {
    if lo == "" then Below(hi)
    else if lo[0] == hi[0] then
      assert Less(lo[1..], hi[1..]);
      [lo[0]] + Amid(lo[1..], hi[1..])
    else Push(lo)
  }

  function Push(lo: string): (k: string)
    requires lo == "" || IsFraction(lo)
    ensures IsFraction(k) && Less(lo, k)
  {
    Extension(lo, "V");
    lo + "V"
  }

  function Mid(lo: Option<Rank>, hi: Option<Rank>): Rank {
    var base := if lo.Some? && IsFraction(lo.value) then lo.value else "";
    if hi.Some? && IsFraction(hi.value) && Less(base, hi.value) then Amid(base, hi.value) else Push(base)
  }

  const MidKeys: KeyGen := KeyGen(s => IsFraction(s), (lo, hi) => Mid(lo, hi))

  /** The contract can be met. */
  lemma MidKeysSound()
    ensures Sound(MidKeys)
  {
    forall lo, hi | Bounds(MidKeys, lo, hi)
      ensures MidKeys.isKey(MidKeys.between(lo, hi)) && Within(MidKeys.between(lo, hi), lo, hi)
    {
      assert MidKeys.between(lo, hi) == Mid(lo, hi);
    }
  }
}
