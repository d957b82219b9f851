/** The six routes of cafe-api/main.py as operations on the `cafe` table,
    which is a map from rowid to row. Every operation takes the table and
    the request's already-extracted parameters and returns the new table
    together with the reply. */
module CafeStore {

  import opened Wrappers
  import opened Cafes
  import RowIds

  type Store = map<int, Cafe>

  /** What the table guarantees of itself: every row is stored under its own
      id, and no two rows share a name (the UNIQUE constraint on `name`). */
  predicate Valid(s: Store) {
    && (forall k :: k in s ==> s[k].id == k)
    && (forall a, b :: a in s && b in s && s[a].name == s[b].name ==> a == b)
  }

  /** The table holds row `c` under some rowid. */
  predicate Stored(s: Store, c: Cafe) {
    exists k :: k in s && s[k] == c
  }

  /** In a valid table a row is found under its own id. */
  lemma RowUnderOwnId(s: Store, c: Cafe)
    requires Valid(s)
    requires Stored(s, c)
    ensures c.id in s && s[c.id] == c
  {
  }

  datatype Failure =
    | EmptyCollection                 // `random.choice` of an empty list raises
    | NoCafesFound                    // search matched nothing
    | NotFound                        // no cafe with that id
    | NoApiKey                        // delete with a key other than API_KEY
    | IdOutOfRange                    // sqlite3's uncaught OverflowError on a lookup by id
    | NotNullViolation(column: string)
    | UniqueViolation(column: string)

  datatype Reply =
    | One(cafe: Cafe)
    | Many(cafes: seq<Cafe>)
    | Added(cafe: Cafe)
    | Updated
    | Removed
    | Failed(failure: Failure)

  datatype Step = Step(store: Store, reply: Reply)

  /** `db.session.execute(db.select(Cafe)).scalars().all()`: every row once,
      in scan order. */
  function AllRows(s: Store): (rows: seq<Cafe>)
    ensures |rows| == |s|
    ensures forall c :: c in rows <==> Stored(s, c)
    ensures Valid(s) ==> IdsAscending(rows)
  {
    var ids := RowIds.ScanOrder(s.Keys);
    var rows := seq(|ids|, i requires 0 <= i < |ids| => s[ids[i]]);
    RowsCoverStore(s, ids, rows);
    assert Valid(s) ==> IdsAscending(rows) by {
      if Valid(s) {
        RowsFollowIds(s, ids, rows);
      }
    }
    rows
  }

  /** In a valid table, rows read in ascending key order have ascending ids. */
  lemma RowsFollowIds(s: Store, ids: seq<int>, rows: seq<Cafe>)
    requires Valid(s)
    requires forall i, j :: 0 <= i < j < |ids| ==> ids[i] < ids[j]
    requires |rows| == |ids|
    requires forall i :: 0 <= i < |ids| ==> ids[i] in s && rows[i] == s[ids[i]]
    ensures IdsAscending(rows)
  {
  }

  /** The rows read in the order of `ids`, which lists every key once, are
      exactly the table's rows. */
  lemma RowsCoverStore(s: Store, ids: seq<int>, rows: seq<Cafe>)
    requires forall k :: k in ids <==> k in s
    requires |rows| == |ids|
    requires forall i :: 0 <= i < |ids| ==> ids[i] in s && rows[i] == s[ids[i]]
    ensures forall c :: c in rows <==> Stored(s, c)
  {
    forall k | k in s
      ensures s[k] in rows
    {
      var i :| 0 <= i < |ids| && ids[i] == k;
      assert rows[i] == s[k];
    }
    forall c | c in rows
      ensures Stored(s, c)
    {
      var i :| 0 <= i < |rows| && rows[i] == c;
      var k := ids[i];
      assert k in s && s[k] == c;
    }
  }

  /** GET /random. `pick` is the index `random.choice` draws, below the
      number of rows. */
  function GetRandomCafe(s: Store, pick: nat): (r: Step)
    requires s == map[] || pick < |s|
    ensures r.store == s
    ensures r.reply == Failed(EmptyCollection) <==> s == map[]
    ensures r.reply.One? || r.reply == Failed(EmptyCollection)
    ensures r.reply.One? ==> Stored(s, r.reply.cafe)
  {
    var rows := AllRows(s);
    if |rows| == 0 then Step(s, Failed(EmptyCollection))
    else Step(s, One(rows[pick]))
  }

  /** Every row is the answer to GET /random for some draw. */
  lemma RandomReachesEveryCafe(s: Store, c: Cafe)
    requires Stored(s, c)
    ensures exists pick: nat :: pick < |s| && GetRandomCafe(s, pick).reply == One(c)
  {
    var rows := AllRows(s);
    var i :| 0 <= i < |rows| && rows[i] == c;
    assert GetRandomCafe(s, i).reply == One(c);
  }

  /** GET /all. */
  function GetAllCafes(s: Store): (r: Step)
    ensures r.store == s
    ensures r.reply.Many?
    ensures |r.reply.cafes| == |s|
    ensures forall c :: c in r.reply.cafes <==> Stored(s, c)
  {
    Step(s, Many(AllRows(s)))
  }

  /** The rows whose location is `loc`, in their original order. For a
      missing `loc`, SQLAlchemy compiles `Cafe.location == None` to
      `location IS NULL`, which no row meets because `location` is NOT
      NULL. */
  function WithLocation(rows: seq<Cafe>, loc: Option<string>): (r: seq<Cafe>)
    ensures |r| <= |rows|
    ensures forall c :: c in r <==> c in rows && loc == Some(c.location)
    ensures IdsAscending(rows) ==> IdsAscending(r)
  {
    if |rows| == 0 then []
    else
      var rest := WithLocation(rows[1..], loc);
      assert forall c :: c in rows <==> c == rows[0] || c in rows[1..] by {
        assert rows == [rows[0]] + rows[1..];
      }
      assert IdsAscending(rows) ==> IdsAscending(rest) && Above(rows[0].id, rest) by {
        if IdsAscending(rows) {
          AscendingTail(rows);
        }
      }
      assert IdsAscending(rest) && Above(rows[0].id, rest) ==> IdsAscending([rows[0]] + rest) by {
        if IdsAscending(rest) && Above(rows[0].id, rest) {
          AscendingCons(rows[0], rest);
        }
      }
      if loc == Some(rows[0].location) then [rows[0]] + rest else rest
  }

  /** Rows listed with strictly ascending ids, hence each at most once. */
  predicate IdsAscending(rows: seq<Cafe>) {
    forall i, j :: 0 <= i < j < |rows| ==> rows[i].id < rows[j].id
  }

  /** Every row listed has an id above `id`. */
  predicate Above(id: int, rows: seq<Cafe>) {
    forall c :: c in rows ==> id < c.id
  }

  lemma AscendingTail(rows: seq<Cafe>)
    requires |rows| > 0 && IdsAscending(rows)
    ensures IdsAscending(rows[1..])
    ensures Above(rows[0].id, rows[1..])
  {
    forall c | c in rows[1..]
      ensures rows[0].id < c.id
    {
      var i :| 0 <= i < |rows[1..]| && rows[1..][i] == c;
      assert rows[i + 1] == c;
    }
  }

  lemma AscendingCons(c: Cafe, rows: seq<Cafe>)
    requires IdsAscending(rows) && Above(c.id, rows)
    ensures IdsAscending([c] + rows)
  {
    var r := [c] + rows;
    forall i, j | 0 <= i < j < |r|
      ensures r[i].id < r[j].id
    {
      assert r[j] == rows[j - 1];
      if i > 0 {
        assert r[i] == rows[i - 1];
      } else {
        assert rows[j - 1] in rows;
      }
    }
  }

  /** GET /search?loc=...: exactly the rows at that location (case-sensitive
      equality), or "No cafes found" when there are none. */
  function Search(s: Store, loc: Option<string>): (r: Step)
    ensures r.store == s
    ensures r.reply.Many? || r.reply == Failed(NoCafesFound)
    ensures r.reply.Many? ==> forall c :: c in r.reply.cafes <==> Stored(s, c) && loc == Some(c.location)
    ensures r.reply == Failed(NoCafesFound) <==> forall k :: k in s ==> loc != Some(s[k].location)
    ensures Valid(s) && r.reply.Many? ==>
      forall i, j :: 0 <= i < j < |r.reply.cafes| ==> r.reply.cafes[i].id < r.reply.cafes[j].id
  {
    var rows := AllRows(s);
    var found := WithLocation(rows, loc);
    assert |found| == 0 <==> forall k :: k in s ==> loc != Some(s[k].location) by {
      if |found| > 0 {
        assert found[0] in found;
      } else {
        forall k | k in s
          ensures loc != Some(s[k].location)
        {
          assert s[k] in rows;
        }
      }
    }
    if |found| == 0 then Step(s, Failed(NoCafesFound))
    else Step(s, Many(found))
  }

  /** The fields of the POST /add form, as `request.form.get` returns them. */
  datatype CafeForm = CafeForm(
    name: Option<string>,
    mapUrl: Option<string>,
    imgUrl: Option<string>,
    location: Option<string>,
    seats: Option<string>,
    hasToilet: Option<string>,
    hasWifi: Option<string>,
    hasSockets: Option<string>,
    canTakeCalls: Option<string>,
    coffeePrice: Option<string>)

  /** Python's `bool()` of a form value: `None` and `""` are false, every
      other string, `"false"` and `"0"` included, is true. */
  function Truthy(v: Option<string>): bool {
    match v
    case None => false
    case Some(t) => |t| > 0
  }

  /** The first NOT NULL text column, in declaration order, that the form
      leaves empty. */
  function MissingColumn(f: CafeForm): (r: Option<string>)
    ensures r.None? <==> f.name.Some? && f.mapUrl.Some? && f.imgUrl.Some? && f.location.Some? && f.seats.Some?
    ensures r == Some("name") <==> f.name.None?
    ensures r == Some("map_url") <==> f.name.Some? && f.mapUrl.None?
    ensures r == Some("img_url") <==> f.name.Some? && f.mapUrl.Some? && f.imgUrl.None?
    ensures r == Some("location") <==> f.name.Some? && f.mapUrl.Some? && f.imgUrl.Some? && f.location.None?
    ensures r == Some("seats") <==>
      f.name.Some? && f.mapUrl.Some? && f.imgUrl.Some? && f.location.Some? && f.seats.None?
  {
    if f.name.None? then Some("name")
    else if f.mapUrl.None? then Some("map_url")
    else if f.imgUrl.None? then Some("img_url")
    else if f.location.None? then Some("location")
    else if f.seats.None? then Some("seats")
    else None
  }

  predicate NameTaken(s: Store, name: string) {
    exists k :: k in s && s[k].name == name
  }

  /** POST /add: build the row from the form and commit it. The commit fails
      on a NOT NULL column left out and, after that, on a name already in
      the table; a failed commit leaves the table as it was. */
  function AddCafe(s: Store, f: CafeForm): (r: Step)
    ensures r.reply.Added? || r.reply.Failed?
    ensures r.reply.Added? <==>
      && f.name.Some? && f.mapUrl.Some? && f.imgUrl.Some? && f.location.Some? && f.seats.Some?
      && forall k :: k in s ==> s[k].name != f.name.value
    ensures r.reply.Failed? ==> r.store == s
    ensures MissingColumn(f).Some? ==> r.reply == Failed(NotNullViolation(MissingColumn(f).value))
    ensures (f.name.Some? && f.mapUrl.Some? && f.imgUrl.Some? && f.location.Some? && f.seats.Some?
             && !r.reply.Added?) ==> r.reply == Failed(UniqueViolation("name"))
    ensures r.reply.Added? ==>
      var c := r.reply.cafe;
      && c.id !in s
      && r.store == s[c.id := c]
      && c.name == f.name.value && c.mapUrl == f.mapUrl.value && c.imgUrl == f.imgUrl.value
      && c.location == f.location.value && c.seats == f.seats.value
      && c.coffeePrice == f.coffeePrice
    ensures r.reply.Added? ==>
      && (r.reply.cafe.hasToilet <==> f.hasToilet.Some? && f.hasToilet.value != "")
      && (r.reply.cafe.hasWifi <==> f.hasWifi.Some? && f.hasWifi.value != "")
      && (r.reply.cafe.hasSockets <==> f.hasSockets.Some? && f.hasSockets.value != "")
      && (r.reply.cafe.canTakeCalls <==> f.canTakeCalls.Some? && f.canTakeCalls.value != "")
  {
    match MissingColumn(f)
    case Some(column) => Step(s, Failed(NotNullViolation(column)))
    case None =>
      if NameTaken(s, f.name.value) then Step(s, Failed(UniqueViolation("name")))
      else
        var c := Cafe(
          RowIds.NextRowId(s.Keys),
          f.name.value, f.mapUrl.value, f.imgUrl.value, f.location.value, f.seats.value,
          Truthy(f.hasToilet), Truthy(f.hasWifi), Truthy(f.hasSockets), Truthy(f.canTakeCalls),
          f.coffeePrice);
        Step(s[c.id := c], Added(c))
  }

  /** PATCH /update-price/<id>?new_price=...: only that row's `coffee_price`
      changes, to the given value (NULL when `new_price` is missing). An id
      SQLite cannot hold makes the lookup raise before any row is read. */
  function UpdatePrice(s: Store, id: int, newPrice: Option<string>): (r: Step)
    ensures r.reply == Failed(IdOutOfRange) <==> !RowIds.Representable(id)
    ensures r.reply == Updated <==> RowIds.Representable(id) && id in s
    ensures r.reply == Failed(NotFound) <==> RowIds.Representable(id) && id !in s
    ensures r.reply != Updated ==> r.store == s
    ensures r.store.Keys == s.Keys
    ensures forall k :: k in s && k != id ==> r.store[k] == s[k]
    ensures r.reply == Updated ==> r.store[id].coffeePrice == newPrice
    ensures r.reply == Updated ==> r.store[id].(coffeePrice := s[id].coffeePrice) == s[id]
  {
    if !RowIds.Representable(id) then Step(s, Failed(IdOutOfRange))
    else if id in s then Step(s[id := s[id].(coffeePrice := newPrice)], Updated)
    else Step(s, Failed(NotFound))
  }

  /** `request.args.get("api_key") or request.headers.get("X-API_KEY")`: the
      query value unless it is missing or empty, else the header value. */
  function EffectiveKey(argKey: Option<string>, headerKey: Option<string>): (k: Option<string>)
    ensures argKey.Some? && argKey.value != "" ==> k == argKey
    ensures argKey.None? || argKey.value == "" ==> k == headerKey
  {
    if argKey.Some? && |argKey.value| > 0 then argKey else headerKey
  }

  /** DELETE /report-closed/<id> exactly as written: the supplied key is
      compared with API_KEY as Python values, so an unset API_KEY (`None`)
      matches a request that supplies no key at all. */
  function RemoveCafeAsWritten(s: Store, id: int, apiKey: Option<string>,
                               argKey: Option<string>, headerKey: Option<string>): (r: Step)
    ensures r.reply == Removed <==>
      EffectiveKey(argKey, headerKey) == apiKey && RowIds.Representable(id) && id in s
    ensures r.reply == Failed(NoApiKey) <==> EffectiveKey(argKey, headerKey) != apiKey
    ensures r.reply == Failed(IdOutOfRange) <==>
      EffectiveKey(argKey, headerKey) == apiKey && !RowIds.Representable(id)
    ensures r.reply == Removed || r.reply == Failed(NotFound) || r.reply == Failed(NoApiKey)
         || r.reply == Failed(IdOutOfRange)
    ensures r.reply == Removed ==> r.store == s - {id} && |r.store| == |s| - 1
    ensures r.reply != Removed ==> r.store == s
  {
    if EffectiveKey(argKey, headerKey) == apiKey then
      if !RowIds.Representable(id) then Step(s, Failed(IdOutOfRange))
      else if id in s then Step(s - {id}, Removed) else Step(s, Failed(NotFound))
    else Step(s, Failed(NoApiKey))
  }

  /** With API_KEY unset and no key in the request, the route as written
      deletes the row. */
  lemma RemoveAsWrittenFailsOpen(s: Store, id: int)
    requires id in s && RowIds.Representable(id)
    ensures RemoveCafeAsWritten(s, id, None, None, None).reply == Removed
    ensures RemoveCafeAsWritten(s, id, None, Some(""), None).store == s - {id}
  {
  }

  /** The key check the route evidently intends: a non-empty key is
      configured (`API_KEY=` in the environment configures none) and the
      request supplies exactly that key. */
  predicate Authorized(apiKey: Option<string>, argKey: Option<string>, headerKey: Option<string>) {
    apiKey.Some? && apiKey.value != "" && EffectiveKey(argKey, headerKey) == apiKey
  }

  /** DELETE /report-closed/<id>, with the key check failing closed: the
      table changes only for the configured key and an existing id, and then
      loses exactly that row. */
  function RemoveCafe(s: Store, id: int, apiKey: Option<string>,
                      argKey: Option<string>, headerKey: Option<string>): (r: Step)
    ensures r.reply == Removed <==>
      Authorized(apiKey, argKey, headerKey) && RowIds.Representable(id) && id in s
    ensures r.reply == Failed(NoApiKey) <==> !Authorized(apiKey, argKey, headerKey)
    ensures r.reply == Failed(IdOutOfRange) <==>
      Authorized(apiKey, argKey, headerKey) && !RowIds.Representable(id)
    ensures r.reply == Removed || r.reply == Failed(NotFound) || r.reply == Failed(NoApiKey)
         || r.reply == Failed(IdOutOfRange)
    ensures r.reply == Removed ==> r.store == s - {id} && |r.store| == |s| - 1
    ensures r.reply != Removed ==> r.store == s
  {
    if Authorized(apiKey, argKey, headerKey) then
      if !RowIds.Representable(id) then Step(s, Failed(IdOutOfRange))
      else if id in s then Step(s - {id}, Removed) else Step(s, Failed(NotFound))
    else Step(s, Failed(NoApiKey))
  }

  /** Without a configured key, unset or empty, nothing can be deleted. */
  lemma RemoveNeedsConfiguredKey(s: Store, id: int, argKey: Option<string>, headerKey: Option<string>)
    ensures RemoveCafe(s, id, None, argKey, headerKey) == Step(s, Failed(NoApiKey))
    ensures RemoveCafe(s, id, Some(""), argKey, headerKey) == Step(s, Failed(NoApiKey))
  {
  }

  /** Where a non-empty key is configured, the corrected check agrees with
      the route. */
  lemma RemoveAgreesWhenKeyConfigured(s: Store, id: int, key: string,
                                      argKey: Option<string>, headerKey: Option<string>)
    requires key != ""
    ensures RemoveCafe(s, id, Some(key), argKey, headerKey) ==
            RemoveCafeAsWritten(s, id, Some(key), argKey, headerKey)
  {
  }
}
