/** The `Cafe` table (cafe-api/main.py): one row type, its column
    declaration in order, and the reading of a row back from its dict. */
module Cafes {

  import opened Wrappers
  import opened Mapper

  /** One row of the `cafe` table. `coffeePrice` is the only nullable
      column; every other column is NOT NULL. */
  datatype Cafe = Cafe(
    id: int,
    name: string,
    mapUrl: string,
    imgUrl: string,
    location: string,
    seats: string,
    hasToilet: bool,
    hasWifi: bool,
    hasSockets: bool,
    canTakeCalls: bool,
    coffeePrice: Option<string>)

  /** The column names of the table, in declaration order. */
  const ColumnNames: seq<string> :=
    ["id", "name", "map_url", "img_url", "location", "seats",
     "has_toilet", "has_wifi", "has_sockets", "can_take_calls", "coffee_price"]

  /** A nullable text column's value. */
  function NullableText(s: Option<string>): Value {
    match s
    case None => VNull
    case Some(t) => VText(t)
  }

  /** `self.__table__.columns` of a row: each declared column with the row's
      value, in declaration order. */
  function Columns(c: Cafe): (cols: seq<Column>)
    ensures |cols| == |ColumnNames|
    ensures forall i :: 0 <= i < |cols| ==> cols[i].name == ColumnNames[i]
    ensures DistinctNames(cols)
    ensures forall i :: 0 <= i < |cols| - 1 ==> !cols[i].value.VNull?
    ensures cols[|cols| - 1].value.VNull? <==> c.coffeePrice.None?
  {
    [ Column("id", VInt(c.id)),
      Column("name", VText(c.name)),
      Column("map_url", VText(c.mapUrl)),
      Column("img_url", VText(c.imgUrl)),
      Column("location", VText(c.location)),
      Column("seats", VText(c.seats)),
      Column("has_toilet", VBool(c.hasToilet)),
      Column("has_wifi", VBool(c.hasWifi)),
      Column("has_sockets", VBool(c.hasSockets)),
      Column("can_take_calls", VBool(c.canTakeCalls)),
      Column("coffee_price", NullableText(c.coffeePrice)) ]
  }

  /** `c.to_dict(skip_none=skipNone)` for a cafe row. */
  function CafeDict(c: Cafe, skipNone: bool): Document {
    ToDict(Columns(c), skipNone)
  }

  function IntAt(d: Document, k: string): Option<int> {
    match Lookup(d, k)
    case Some(VInt(n)) => Some(n)
    case _ => None
  }

  function TextAt(d: Document, k: string): Option<string> {
    match Lookup(d, k)
    case Some(VText(t)) => Some(t)
    case _ => None
  }

  function BoolAt(d: Document, k: string): Option<bool> {
    match Lookup(d, k)
    case Some(VBool(b)) => Some(b)
    case _ => None
  }

  /** A nullable text column: absent or NULL reads as NULL. */
  function NullableTextAt(d: Document, k: string): Option<Option<string>> {
    match Lookup(d, k)
    case None => Some(None)
    case Some(VNull) => Some(None)
    case Some(VText(t)) => Some(Some(t))
    case _ => None
  }

  /** Reads a cafe back from a dict shaped like the output of `to_dict`;
      `None` when a NOT NULL column is missing or holds the wrong kind. */
  function FromDict(d: Document): Option<Cafe> {
    var id :- IntAt(d, "id");
    var name :- TextAt(d, "name");
    var mapUrl :- TextAt(d, "map_url");
    var imgUrl :- TextAt(d, "img_url");
    var location :- TextAt(d, "location");
    var seats :- TextAt(d, "seats");
    var hasToilet :- BoolAt(d, "has_toilet");
    var hasWifi :- BoolAt(d, "has_wifi");
    var hasSockets :- BoolAt(d, "has_sockets");
    var canTakeCalls :- BoolAt(d, "can_take_calls");
    var coffeePrice :- NullableTextAt(d, "coffee_price");
    Some(Cafe(id, name, mapUrl, imgUrl, location, seats,
              hasToilet, hasWifi, hasSockets, canTakeCalls, coffeePrice))
  }

  /** The dict of a cafe, with or without NULLs skipped, carries the whole
      row: reading it back gives the same cafe. In particular the dict is
      a pure projection that loses nothing and changes nothing. */
  lemma DictRoundTrip(c: Cafe, skipNone: bool)
    ensures FromDict(CafeDict(c, skipNone)) == Some(c)
  {
    DeclaredRoundTrip(c, Columns(c), skipNone);
  }

  /** `cols` holds the columns of `c` in the table's declaration order. */
  predicate LaidOut(c: Cafe, cols: seq<Column>) {
    && |cols| == 11
    && cols[0] == Column("id", VInt(c.id))
    && cols[1] == Column("name", VText(c.name))
    && cols[2] == Column("map_url", VText(c.mapUrl))
    && cols[3] == Column("img_url", VText(c.imgUrl))
    && cols[4] == Column("location", VText(c.location))
    && cols[5] == Column("seats", VText(c.seats))
    && cols[6] == Column("has_toilet", VBool(c.hasToilet))
    && cols[7] == Column("has_wifi", VBool(c.hasWifi))
    && cols[8] == Column("has_sockets", VBool(c.hasSockets))
    && cols[9] == Column("can_take_calls", VBool(c.canTakeCalls))
    && cols[10] == Column("coffee_price", NullableText(c.coffeePrice))
  }

  /** The round trip for any column list laid out like the table's. */
  lemma DeclaredRoundTrip(c: Cafe, cols: seq<Column>, skipNone: bool)
    requires LaidOut(c, cols) && DistinctNames(cols)
    ensures FromDict(ToDict(cols, skipNone)) == Some(c)
  {
    var d := ToDict(cols, skipNone);
    forall j | 0 <= j < |cols|
      ensures Lookup(d, cols[j].name) ==
        if skipNone && cols[j].value.VNull? then None else Some(cols[j].value)
    {
      LookupColumn(cols, skipNone, j);
    }
    LookupsReadBack(d, c, cols, skipNone);
  }

  lemma LookupsReadBack(d: Document, c: Cafe, cols: seq<Column>, skipNone: bool)
    requires LaidOut(c, cols)
    requires forall j :: 0 <= j < |cols| ==>
      Lookup(d, cols[j].name) == (if skipNone && cols[j].value.VNull? then None else Some(cols[j].value))
    ensures FromDict(d) == Some(c)
  {
    assert IntAt(d, "id") == Some(c.id) by { assert cols[0].name == "id"; }
    assert TextAt(d, "name") == Some(c.name) by { assert cols[1].name == "name"; }
    assert TextAt(d, "map_url") == Some(c.mapUrl) by { assert cols[2].name == "map_url"; }
    assert TextAt(d, "img_url") == Some(c.imgUrl) by { assert cols[3].name == "img_url"; }
    assert TextAt(d, "location") == Some(c.location) by { assert cols[4].name == "location"; }
    assert TextAt(d, "seats") == Some(c.seats) by { assert cols[5].name == "seats"; }
    assert BoolAt(d, "has_toilet") == Some(c.hasToilet) by { assert cols[6].name == "has_toilet"; }
    assert BoolAt(d, "has_wifi") == Some(c.hasWifi) by { assert cols[7].name == "has_wifi"; }
    assert BoolAt(d, "has_sockets") == Some(c.hasSockets) by { assert cols[8].name == "has_sockets"; }
    assert BoolAt(d, "can_take_calls") == Some(c.canTakeCalls) by { assert cols[9].name == "can_take_calls"; }
    assert NullableTextAt(d, "coffee_price") == Some(c.coffeePrice) by { assert cols[10].name == "coffee_price"; }
    ReadBack(d, c);
  }

  /** A dict holding each column of `c` under its name (a NULL price may
      also be missing) reads back as `c`. */
  lemma ReadBack(d: Document, c: Cafe)
    requires IntAt(d, "id") == Some(c.id)
    requires TextAt(d, "name") == Some(c.name)
    requires TextAt(d, "map_url") == Some(c.mapUrl)
    requires TextAt(d, "img_url") == Some(c.imgUrl)
    requires TextAt(d, "location") == Some(c.location)
    requires TextAt(d, "seats") == Some(c.seats)
    requires BoolAt(d, "has_toilet") == Some(c.hasToilet)
    requires BoolAt(d, "has_wifi") == Some(c.hasWifi)
    requires BoolAt(d, "has_sockets") == Some(c.hasSockets)
    requires BoolAt(d, "can_take_calls") == Some(c.canTakeCalls)
    requires NullableTextAt(d, "coffee_price") == Some(c.coffeePrice)
    ensures FromDict(d) == Some(c)
  {
  }

  /** `[cafe.to_dict() for cafe in cafes]`, the list the list routes hand
      to `jsonify`: one dict per row, in order, each holding all eleven
      columns (a NULL price included) and reading back as its row. The key
      order is that of the Python dict; the JSON rendering sorts keys. */
  function DictList(cafes: seq<Cafe>): (ds: seq<Document>)
    ensures |ds| == |cafes|
    ensures forall i :: 0 <= i < |cafes| ==> FromDict(ds[i]) == Some(cafes[i])
    ensures forall i :: 0 <= i < |cafes| ==>
      |ds[i]| == |ColumnNames| && forall j :: 0 <= j < |ColumnNames| ==> ds[i][j].key == ColumnNames[j]
  {
    var ds := seq(|cafes|, i requires 0 <= i < |cafes| => CafeDict(cafes[i], false));
    forall i | 0 <= i < |cafes|
      ensures FromDict(ds[i]) == Some(cafes[i])
      ensures |ds[i]| == |ColumnNames| && forall j :: 0 <= j < |ColumnNames| ==> ds[i][j].key == ColumnNames[j]
    {
      DictRoundTrip(cafes[i], false);
      CafeDictKeys(cafes[i]);
    }
    ds
  }

  /** Distinct cafes have distinct dicts. */
  lemma DictInjective(c1: Cafe, c2: Cafe, skipNone: bool)
    requires CafeDict(c1, skipNone) == CafeDict(c2, skipNone)
    ensures c1 == c2
  {
    DictRoundTrip(c1, skipNone);
    DictRoundTrip(c2, skipNone);
  }

  /** `to_dict()` of a cafe lists all eleven columns in declaration order. */
  lemma CafeDictKeys(c: Cafe)
    ensures |CafeDict(c, false)| == |ColumnNames|
    ensures forall i :: 0 <= i < |ColumnNames| ==> CafeDict(c, false)[i].key == ColumnNames[i]
  {
    ToDictDeclared(Columns(c));
  }

  /** `to_dict(skip_none=True)` of a cafe drops `coffee_price` exactly when
      it is NULL and leaves the other ten entries as `to_dict()` has them. */
  lemma CafeDictSkipNone(c: Cafe)
    ensures |CafeDict(c, false)| == |ColumnNames|
    ensures c.coffeePrice.None? ==> CafeDict(c, true) == CafeDict(c, false)[..|ColumnNames| - 1]
    ensures c.coffeePrice.Some? ==> CafeDict(c, true) == CafeDict(c, false)
  {
    ToDictDeclared(Columns(c));
    OnlyLastNullable(Columns(c));
  }

  /** For columns of which only the last may be NULL, skipping NULLs drops
      the last entry when it is NULL and changes nothing otherwise. */
  lemma OnlyLastNullable(cols: seq<Column>)
    requires |cols| > 0 && DistinctNames(cols)
    requires forall i :: 0 <= i < |cols| - 1 ==> !cols[i].value.VNull?
    ensures |ToDict(cols, false)| == |cols|
    ensures cols[|cols| - 1].value.VNull? ==> ToDict(cols, true) == ToDict(cols, false)[..|cols| - 1]
    ensures !cols[|cols| - 1].value.VNull? ==> ToDict(cols, true) == ToDict(cols, false)
  {
    ToDictDeclared(cols);
    ToDictSkipsNull(cols);
    var prefix := cols[..|cols| - 1];
    if cols[|cols| - 1].value.VNull? {
      NonNullOfTotal(prefix);
      assert NonNull(cols) == prefix;
      ToDictDeclared(prefix);
    } else {
      NonNullOfTotal(cols);
    }
  }

  /** Columns without NULLs are all kept. */
  lemma {:induction false} NonNullOfTotal(cols: seq<Column>)
    requires forall i :: 0 <= i < |cols| ==> !cols[i].value.VNull?
    ensures NonNull(cols) == cols
  {
    if |cols| > 0 {
      var prefix := cols[..|cols| - 1];
      var last := cols[|cols| - 1];
      assert cols == prefix + [last];
      NonNullOfTotal(prefix);
      NonNullSnoc(prefix, last);
    }
  }
}
