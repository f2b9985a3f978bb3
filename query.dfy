/** The ORM query `session.query(User).filter(p).first()` on an in-memory table. */
module Query {
  import opened Wrappers

  /** Row k is the first row, in table order, that satisfies p. */
  ghost predicate IsFirst<T>(rows: seq<T>, p: T -> bool, k: int) {
    0 <= k < |rows| && p(rows[k]) && forall j :: 0 <= j < k ==> !p(rows[j])
  }

  /** The index of the first row satisfying p, or None when no row does. */
  function First<T>(rows: seq<T>, p: T -> bool): (r: Option<nat>)
    ensures r.Some? ==> IsFirst(rows, p, r.value)
    ensures r.None? <==> forall j :: 0 <= j < |rows| ==> !p(rows[j])
  {
    if |rows| == 0 then None
    else if p(rows[0]) then Some(0)
    else match First(rows[1..], p)
      case None => None
      case Some(k) => Some(k + 1)
  }

  /** At most one row is the first to satisfy p. */
  lemma FirstIsUnique<T>(rows: seq<T>, p: T -> bool, k: int, k': int)
    requires IsFirst(rows, p, k) && IsFirst(rows, p, k')
    ensures k == k'
  {
  }
}
