/** Row order of a full table scan. */
module Tables {

  /**
   * The ids below `n` that are in use in table `m`, ascending: the order in
   * which sqlite visits rows of a table keyed by a positive rowid.
   */
  function IdsBelow<V>(m: map<int, V>, n: int): (ids: seq<int>)
    decreases n
    ensures forall i :: 0 <= i < |ids| ==> ids[i] in m && 1 <= ids[i] < n
    ensures forall i, j :: 0 <= i < j < |ids| ==> ids[i] < ids[j]
    ensures forall k :: k in m && 1 <= k < n ==> k in ids
  {
    if n <= 1 then [] else IdsBelow(m, n - 1) + (if n - 1 in m then [n - 1] else [])
  }

  /** The scan only looks at which ids are in use. */
  lemma {:induction false} IdsBelowSameKeys<V>(m: map<int, V>, m': map<int, V>, n: int)
    requires m.Keys == m'.Keys
    decreases n
    ensures IdsBelow(m, n) == IdsBelow(m', n)
  {
    if n > 1 {
      IdsBelowSameKeys(m, m', n - 1);
    }
  }

  /** A set is empty or has an element. */
  lemma EmptyOrInhabited(ks: set<int>)
    ensures ks == {} || exists y :: y in ks
  {
    if !exists y :: y in ks {
      assert ks == {};
    }
  }

  /** The largest element of a finite non-empty set of ids. */
  lemma Largest(ks: set<int>) returns (top: int)
    requires ks != {}
    ensures top in ks && forall j :: j in ks ==> j <= top
    decreases |ks|
  {
    EmptyOrInhabited(ks);
    var x :| x in ks;
    if ks == {x} {
      top := x;
    } else {
      var m := Largest(ks - {x});
      top := if x <= m then m else x;
      forall j | j in ks ensures j <= top {
        if j != x {
          assert j in ks - {x};
        }
      }
    }
  }

  /** A finite non-empty set of ids has a largest element. */
  lemma LargestExists(ks: set<int>)
    requires ks != {}
    ensures exists k :: k in ks && forall j :: j in ks ==> j <= k
  {
    var top := Largest(ks);
  }

  /**
   * The id sqlite gives a new row of a table whose INTEGER PRIMARY KEY is not
   * AUTOINCREMENT: one more than the largest id in use, or 1 for an empty
   * table. An id freed by a delete can come back this way.
   */
  function NextRowId<V>(m: map<int, V>): (n: int)
    ensures n !in m
    ensures forall k :: k in m ==> k < n
    ensures m == map[] ==> n == 1
    ensures m != map[] ==> n - 1 in m
  {
    if m == map[] then 1
    else
      LargestExists(m.Keys);
      var top :| top in m && forall j :: j in m ==> j <= top;
      top + 1
  }
}
