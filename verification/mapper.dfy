/** The generic row-to-dict projection of `SerializerMixin.to_dict`
    (cafe-api/main.py). A row is given as the ordered list of its declared
    columns with their current values; the result is a Python dict, kept here
    as its list of entries in insertion order. */
module Mapper {

  import opened Wrappers

  /** A column value as the mixin sees it: text, boolean, integer or NULL. */
  datatype Value = VText(text: string) | VBool(flag: bool) | VInt(n: int) | VNull

  /** One declared column of a row together with the row's value for it. */
  datatype Column = Column(name: string, value: Value)

  /** One key/value pair of a dict. */
  datatype Entry = Entry(key: string, value: Value)

  /** A dict: its entries in insertion order (keys are kept distinct). */
  type Document = seq<Entry>

  predicate HasKey(d: Document, k: string) {
    exists i :: 0 <= i < |d| && d[i].key == k
  }

  predicate DistinctKeys(d: Document) {
    forall i, j :: 0 <= i < j < |d| ==> d[i].key != d[j].key
  }

  predicate DistinctNames(cols: seq<Column>) {
    forall i, j :: 0 <= i < j < |cols| ==> cols[i].name != cols[j].name
  }

  /** `d.get(k)`. */
  function Lookup(d: Document, k: string): (r: Option<Value>)
    ensures r.None? <==> !HasKey(d, k)
  {
    if |d| == 0 then None
    else if d[0].key == k then Some(d[0].value)
    else
      var r := Lookup(d[1..], k);
      assert HasKey(d, k) ==> HasKey(d[1..], k) by {
        if HasKey(d, k) {
          var i :| 0 <= i < |d| && d[i].key == k;
          assert d[1..][i - 1].key == k;
        }
      }
      r
  }

  /** In a dict with distinct keys, the entry at position i is what a lookup
      of its key finds. */
  lemma {:induction false} LookupAt(d: Document, i: int)
    requires DistinctKeys(d)
    requires 0 <= i < |d|
    ensures Lookup(d, d[i].key) == Some(d[i].value)
    decreases i
  {
    if i > 0 {
      assert d[0].key != d[i].key;
      assert d[1..][i - 1] == d[i];
      LookupAt(d[1..], i - 1);
    }
  }

  /** `d[k] = v`: an existing key keeps its position and takes the new value,
      a new key is appended at the end. */
  function Put(d: Document, k: string, v: Value): (r: Document)
    requires DistinctKeys(d)
    ensures DistinctKeys(r)
    ensures HasKey(d, k) ==> |r| == |d|
    ensures HasKey(d, k) ==>
      forall i :: 0 <= i < |d| ==> r[i] == (if d[i].key == k then Entry(k, v) else d[i])
    ensures !HasKey(d, k) ==> r == d + [Entry(k, v)]
    decreases |d|
  {
    if |d| == 0 then [Entry(k, v)]
    else if d[0].key == k then [Entry(k, v)] + d[1..]
    else
      var rest := Put(d[1..], k, v);
      PutStep(d, k, v, rest);
      [d[0]] + rest
  }

  /** The step of `Put` past a first entry with another key. */
  lemma PutStep(d: Document, k: string, v: Value, rest: Document)
    requires |d| > 0 && d[0].key != k && DistinctKeys(d)
    requires DistinctKeys(rest)
    requires HasKey(d[1..], k) ==> |rest| == |d| - 1
    requires HasKey(d[1..], k) ==>
      forall i :: 0 <= i < |d| - 1 ==> rest[i] == (if d[i + 1].key == k then Entry(k, v) else d[i + 1])
    requires !HasKey(d[1..], k) ==> rest == d[1..] + [Entry(k, v)]
    ensures HasKey(d, k) <==> HasKey(d[1..], k)
    ensures DistinctKeys([d[0]] + rest)
  {
    if HasKey(d, k) {
      var i :| 0 <= i < |d| && d[i].key == k;
      assert d[1..][i - 1].key == k;
    }
    if HasKey(d[1..], k) {
      var i :| 0 <= i < |d[1..]| && d[1..][i].key == k;
      assert d[i + 1].key == k;
    }
    forall j | 0 <= j < |rest|
      ensures rest[j].key != d[0].key
    {
      if j < |d| - 1 {
        assert rest[j].key == k || rest[j] == d[j + 1];
      } else {
        assert rest[j].key == k;
      }
    }
    var r := [d[0]] + rest;
    forall a, b | 0 <= a < b < |r|
      ensures r[a].key != r[b].key
    {
      if a > 0 {
        assert r[a] == rest[a - 1] && r[b] == rest[b - 1];
      } else {
        assert r[b] == rest[b - 1];
      }
    }
  }

  /** `to_dict(include_relationships=False, skip_none=skipNone)`: walk the
      columns in declaration order, dropping NULL values when `skipNone`,
      and store each remaining value under its column name. */
  function ToDict(cols: seq<Column>, skipNone: bool): (d: Document)
    ensures DistinctKeys(d)
    ensures |d| <= |cols|
    ensures skipNone ==> forall i :: 0 <= i < |d| ==> d[i].value != VNull
  {
    if |cols| == 0 then []
    else
      var prefix := cols[..|cols| - 1];
      var last := cols[|cols| - 1];
      var d := ToDict(prefix, skipNone);
      if skipNone && last.value.VNull? then d else Put(d, last.name, last.value)
  }

  /** The columns whose value is not NULL, in their original order. */
  function NonNull(cols: seq<Column>): (r: seq<Column>)
    ensures |r| <= |cols|
    ensures forall c :: c in r <==> c in cols && !c.value.VNull?
    ensures DistinctNames(cols) ==> DistinctNames(r)
  {
    if |cols| == 0 then []
    else
      var prefix := cols[..|cols| - 1];
      var last := cols[|cols| - 1];
      var rest := NonNull(prefix);
      assert forall c :: c in cols <==> c in prefix || c == last by {
        assert cols == prefix + [last];
      }
      if last.value.VNull? then rest
      else
        assert DistinctNames(cols) ==> DistinctNames(rest + [last]) by {
          if DistinctNames(cols) {
            forall i | 0 <= i < |rest|
              ensures rest[i].name != last.name
            {
              assert rest[i] in prefix;
              var j :| 0 <= j < |prefix| && prefix[j] == rest[i];
              assert cols[j] == prefix[j];
            }
          }
        }
        rest + [last]
  }

  /** Filtering one more column keeps it exactly when it is not NULL. */
  lemma NonNullSnoc(prefix: seq<Column>, last: Column)
    ensures NonNull(prefix + [last]) ==
      if last.value.VNull? then NonNull(prefix) else NonNull(prefix) + [last]
  {
    assert (prefix + [last])[..|prefix|] == prefix;
  }

  /** With `skip_none=True` the dict is the one built from the non-NULL
      columns alone. */
  lemma {:induction false} ToDictSkipsNull(cols: seq<Column>)
    ensures ToDict(cols, true) == ToDict(NonNull(cols), false)
  {
    if |cols| > 0 {
      var prefix := cols[..|cols| - 1];
      var last := cols[|cols| - 1];
      ToDictSkipsNull(prefix);
      var kept := NonNull(prefix);
      if !last.value.VNull? {
        assert NonNull(cols) == kept + [last];
        assert (kept + [last])[..|kept|] == kept;
      }
    }
  }

  /** For a table whose column names are distinct, `to_dict()` yields exactly
      one entry per declared column, in declaration order, keyed by the
      column's name and holding the column's value. */
  lemma {:induction false} ToDictDeclared(cols: seq<Column>)
    requires DistinctNames(cols)
    ensures |ToDict(cols, false)| == |cols|
    ensures forall i :: 0 <= i < |cols| ==> ToDict(cols, false)[i] == Entry(cols[i].name, cols[i].value)
  {
    if |cols| > 0 {
      var prefix := cols[..|cols| - 1];
      var last := cols[|cols| - 1];
      assert DistinctNames(prefix) by {
        forall i, j | 0 <= i < j < |prefix|
          ensures prefix[i].name != prefix[j].name
        {
          assert prefix[i] == cols[i] && prefix[j] == cols[j];
        }
      }
      ToDictDeclared(prefix);
      var d := ToDict(prefix, false);
      assert !HasKey(d, last.name) by {
        forall i | 0 <= i < |d|
          ensures d[i].key != last.name
        {
          assert d[i].key == cols[i].name;
        }
      }
      assert ToDict(cols, false) == d + [Entry(last.name, last.value)];
    }
  }

  /** For a table whose column names are distinct, `to_dict(skip_none=True)`
      yields the entries of `to_dict()` with exactly the NULL-valued ones
      removed, still in declaration order. */
  lemma SkipNoneDeclared(cols: seq<Column>)
    requires DistinctNames(cols)
    ensures |ToDict(cols, true)| == |NonNull(cols)|
    ensures forall i :: 0 <= i < |NonNull(cols)| ==>
      ToDict(cols, true)[i] == Entry(NonNull(cols)[i].name, NonNull(cols)[i].value)
  {
    ToDictSkipsNull(cols);
    ToDictDeclared(NonNull(cols));
  }

  /** What a lookup finds in the dict for the key of a declared column: the
      column's value, or nothing when NULLs are skipped and the value is NULL. */
  lemma LookupColumn(cols: seq<Column>, skipNone: bool, j: int)
    requires DistinctNames(cols)
    requires 0 <= j < |cols|
    ensures Lookup(ToDict(cols, skipNone), cols[j].name) ==
      if skipNone && cols[j].value.VNull? then None else Some(cols[j].value)
  {
    if !skipNone {
      ToDictDeclared(cols);
      LookupAt(ToDict(cols, false), j);
    } else {
      var kept := NonNull(cols);
      SkipNoneDeclared(cols);
      var d := ToDict(cols, true);
      if cols[j].value.VNull? {
        assert !HasKey(d, cols[j].name) by {
          forall i | 0 <= i < |d|
            ensures d[i].key != cols[j].name
          {
            assert kept[i] in cols;
            var m :| 0 <= m < |cols| && cols[m] == kept[i];
            assert m != j;
          }
        }
      } else {
        assert cols[j] in kept;
        var i :| 0 <= i < |kept| && kept[i] == cols[j];
        LookupAt(d, i);
      }
    }
  }
}
