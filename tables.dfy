/** Generic facts about tables kept as maps from auto-increment ids to rows. */
module Tables {
  import opened Wrappers

  /** Every id in use is below the table's next auto-increment value. */
  predicate KeysBelow<T>(m: map<nat, T>, next: nat)
  {
    forall k :: k in m ==> k < next
  }

  /** Updating a union at a key is updating its right operand there. */
  lemma UnionUpdate<K, V>(m: map<K, V>, a: map<K, V>, k: K, v: V)
    ensures (m + a)[k := v] == m + a[k := v]
  {
  }

  /** The lowest id in [lo, hi) whose row satisfies `p`: the row a SELECT
      without ORDER BY lists first in a table scanned in id order. */
  function FirstKeyWhere<T>(m: map<nat, T>, p: T -> bool, lo: nat, hi: nat): (r: Option<nat>)
    decreases hi - lo
    ensures r.Some? ==> lo <= r.value < hi && r.value in m && p(m[r.value])
    ensures r.Some? ==> forall k :: lo <= k < r.value && k in m ==> !p(m[k])
    ensures r.None? <==> forall k :: lo <= k < hi && k in m ==> !p(m[k])
  {
    if lo >= hi then None
    else if lo in m && p(m[lo]) then Some(lo)
    else FirstKeyWhere(m, p, lo + 1, hi)
  }

  /** With every id below `next`, the scan from 0 finds a row exactly when
      some row satisfies `p`. */
  lemma FirstKeyFindsAny<T>(m: map<nat, T>, p: T -> bool, next: nat)
    requires KeysBelow(m, next)
    ensures FirstKeyWhere(m, p, 0, next).None? <==> forall k :: k in m ==> !p(m[k])
  {
  }

  /** Two tables with the same ids whose rows agree on `p` yield the same
      first matching id. */
  lemma {:induction false} FirstKeyWhereAgrees<T>(m1: map<nat, T>, m2: map<nat, T>, p: T -> bool, lo: nat, hi: nat)
    requires m1.Keys == m2.Keys
    requires forall k :: k in m1 ==> p(m1[k]) == p(m2[k])
    decreases hi - lo
    ensures FirstKeyWhere(m1, p, lo, hi) == FirstKeyWhere(m2, p, lo, hi)
  {
    if lo < hi {
      FirstKeyWhereAgrees(m1, m2, p, lo + 1, hi);
    }
  }
}
