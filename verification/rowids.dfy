/** The two things the SQLite table decides about rowids that the routes
    depend on: which id a new row receives, and the order a full scan
    (`db.select(Cafe)` with no ORDER BY) returns the rows in. */
module RowIds {

  predicate IsMax(s: set<int>, m: int) {
    m in s && forall k :: k in s ==> k <= m
  }

  /** Every non-empty finite set of ids has a largest one. */
  lemma {:induction false} MaxExists(s: set<int>)
    requires s != {}
    ensures exists m :: IsMax(s, m)
    decreases |s|
  {
    if forall y :: y !in s {  // impossible: s is not empty
      assert false;
    }
    var x :| x in s;
    if s == {x} {
      assert IsMax(s, x);
    } else {
      var rest := s - {x};
      MaxExists(rest);
      var m :| IsMax(rest, m);
      assert s == rest + {x};
      if x <= m {
        assert IsMax(s, m);
      } else {
        assert IsMax(s, x);
      }
    }
  }

  /** The largest id of a non-empty set. */
  function MaxOf(s: set<int>): (m: int)
    requires s != {}
    ensures m in s
    ensures forall k :: k in s ==> k <= m
  {
    MaxExists(s);
    var m :| IsMax(s, m);
    m
  }

  /** The rowid SQLite gives a row inserted without one: one more than the
      largest rowid in the table, or 1 when the table is empty. */
  function NextRowId(ids: set<int>): (id: int)
    ensures id !in ids
    ensures forall k :: k in ids ==> k < id
  {
    if ids == {} then 1 else MaxOf(ids) + 1
  }

  /** The ids of a table in the order a full scan visits them: ascending. */
  function ScanOrder(ids: set<int>): (r: seq<int>)
    ensures |r| == |ids|
    ensures forall k :: k in r <==> k in ids
    ensures forall i, j :: 0 <= i < j < |r| ==> r[i] < r[j]
    decreases |ids|
  {
    if ids == {} then []
    else
      var m := MaxOf(ids);
      ScanOrder(ids - {m}) + [m]
  }

  /** An SQLite INTEGER is a signed 64-bit value. Python's sqlite3 refuses
      to bind an int outside this range as a query parameter and raises
      OverflowError. */
  const MinInteger: int := -0x8000_0000_0000_0000
  const MaxInteger: int := 0x7FFF_FFFF_FFFF_FFFF

  predicate Representable(id: int) {
    MinInteger <= id <= MaxInteger
  }
}
