# Cafe API — a Dafny model

This project models the core of the cafe catalogue service in
`cafe-api/main.py`: the generic row-to-dict serialiser
`SerializerMixin.to_dict`, the `Cafe` table, and the six routes that read
and change the table (random pick, list all, search by location, add,
update price, delete with an API key).

The database is a `map<int, Cafe>` from rowid to row. Every route is a pure
function from the table and the request's already-extracted parameters to
a `Step`: the new table and a reply (`One`, `Many`, `Added`, `Updated`,
`Removed`, or `Failed(...)` with a typed failure). Request values are
`Option<string>`, because `request.form.get`, `request.args.get` and
`request.headers.get` return `None` for a missing value.

Modules:

- `Wrappers` (`wrappers.dfy`): `Option`, standing for Python's `None`.
- `Mapper` (`mapper.dfy`): `to_dict` over an explicit ordered column list.
  `Value = VText | VBool | VInt | VNull`. A dict is its entries in insertion
  order, and `Put` is `d[k] = v`.
- `Cafes` (`cafes.dfy`): the `Cafe` row, its column declaration in order,
  and `FromDict`, which reads a row back from its dict.
- `RowIds` (`rowids.dfy`): the rowid SQLite gives a new row (largest rowid
  plus one, or 1 for an empty table) and the order a full scan returns rows
  in (ascending rowid). A new id is fresh and larger than every id in use.
  The scan order is modelled as ascending rowid. That is the order SQLite's
  full-table scan of this table gives, but SQL does not guarantee it without
  ORDER BY. The ordering clauses of `AllRows` and `Search` rest on it.
- `CafeStore` (`store.dfy`): the six routes and the table invariant `Valid`
  (every row is stored under its own id, and names are unique).
- `StoreLaws` (`laws.dfy`): properties that relate the routes to each other
  and to `Valid`.

Decisions that follow the code:

- A search with no match replies "No cafes found" (a failure), not an
  empty list. A search without `loc` compares `location` with `None`,
  which SQLAlchemy compiles to `location IS NULL`. No row meets that,
  because `location` is NOT NULL.
- `random.choice` of an empty list raises. This is the
  `Failed(EmptyCollection)` reply.
- A form without a flag, or with an empty flag, stores `false`. Any other
  string stores `true`, including `"false"`.
- A form without a NOT NULL text column fails at commit. SQLite checks
  NOT NULL before UNIQUE, and the model reports the first missing column in
  declaration order. A duplicate name fails on the UNIQUE constraint. The
  route does not catch these errors. The model returns them as `Failed`
  replies and leaves the table unchanged.
- `update-price` without `new_price` sets the price to NULL, since the
  column is nullable.
- The delete route compares the key first and looks up the id second. A
  wrong key gives `NoApiKey` whether or not the id exists.
- An id outside SQLite's signed 64-bit INTEGER range (at or above 2^63,
  which Flask's `<int:...>` converter accepts) makes `db.session.get` raise
  `OverflowError` in Python's sqlite3 driver. Nothing catches it. The model
  replies `Failed(IdOutOfRange)` and leaves the table unchanged. For
  update-price this happens before any row is read. For delete it happens
  only after the key check has passed.
- The table has no AUTOINCREMENT, so a new row takes the largest rowid in
  use plus one. After the row with the largest id is deleted, the next add
  reuses that id: from `{1, 2}`, deleting 2 and then adding gives the new
  row id 2. Ids are unique among the rows present, not fresh across
  deletes.

## Model

| member | source | states |
|---|---|---|
| Mapper.Put | cafe-api/main.py:34 | storing under a key already in the dict replaces that entry's value in place and leaves every other entry alone; a new key is appended at the end; keys stay distinct |
| Mapper.ToDict | cafe-api/main.py:26-34 | the dict has distinct keys, has no more entries than there are columns, and holds no NULL value when `skip_none` is set |
| Mapper.ToDictDeclared | cafe-api/main.py:28-34 | when column names are distinct, `to_dict()` has exactly one entry per declared column, in declaration order, keyed by the column name and holding the column's value |
| Mapper.ToDictSkipsNull | cafe-api/main.py:32-33 | `to_dict(skip_none=True)` is the dict built from the non-NULL columns alone, for any column list |
| Mapper.NonNull | cafe-api/main.py:32-33 | the kept columns are exactly the non-NULL ones, and distinct names stay distinct |
| Mapper.SkipNoneDeclared | cafe-api/main.py:26-34 | when column names are distinct, `to_dict(skip_none=True)` is the declared entries with exactly the NULL-valued ones removed, in declaration order |
| Mapper.LookupColumn | cafe-api/main.py:28-34 | looking up a declared column's name in the dict finds that column's value, or nothing when it is NULL and NULLs are skipped |
| Cafes.Columns | cafe-api/main.py:49-60 | the table declares eleven columns with distinct names in source order; only `coffee_price` can hold NULL, and it does exactly when the price is absent |
| Cafes.DictRoundTrip | cafe-api/main.py:24-45 | the dict of a cafe (`CafeDict`, the per-row `to_dict()` of lines 81, 87 and 95), with or without NULLs skipped, reads back as the same cafe: `to_dict` loses nothing and changes nothing in the row |
| Cafes.DictInjective | cafe-api/main.py:24-45 | two cafes with the same dict are the same cafe |
| Cafes.CafeDictKeys | cafe-api/main.py:49-60 | `to_dict()` of a cafe (`CafeDict`) has the eleven column names as keys, in declaration order |
| Cafes.CafeDictSkipNone | cafe-api/main.py:32-33 | `to_dict(skip_none=True)` of a cafe drops the last entry (`coffee_price`) exactly when the price is NULL and otherwise equals `to_dict()` |
| Cafes.DictList | cafe-api/main.py:87 | the list reply has one dict per row, in row order (`CafeDict` with NULLs kept). Each dict has all eleven column names as keys, in declaration order, so a NULL price is sent as `coffee_price: None`, and each reads back as its row |
| RowIds.NextRowId | cafe-api/main.py:114-115 | the rowid given to a new row is not in use and is larger than every rowid in use |
| RowIds.ScanOrder | cafe-api/main.py:78-79 | a full scan lists every rowid of the table exactly once, in strictly ascending order |
| CafeStore.AllRows | cafe-api/main.py:85-86 | `select(Cafe)` returns one row per table entry, exactly the stored rows, with ids ascending in a valid table |
| CafeStore.RowUnderOwnId | cafe-api/main.py:50 | in a valid table every stored row is found under its own id |
| CafeStore.GetRandomCafe | cafe-api/main.py:78-81 | an empty table gives the empty-collection failure; otherwise the reply is a row of the table; the table never changes |
| CafeStore.RandomReachesEveryCafe | cafe-api/main.py:80 | every row of the table is the reply for some draw of the random index |
| CafeStore.GetAllCafes | cafe-api/main.py:85-87 | the reply lists exactly the stored rows, one per table entry, and the table does not change |
| CafeStore.WithLocation | cafe-api/main.py:92 | the filter keeps exactly the rows whose location equals `loc`, and a missing `loc` keeps none; rows listed with ascending ids stay ascending, so each match appears once |
| CafeStore.Search | cafe-api/main.py:91-97 | the reply lists exactly the stored rows whose location equals `loc` (case-sensitive), each once, in ascending id order in a valid table; it is "No cafes found" exactly when no row has that location; the table never changes |
| CafeStore.MissingColumn | cafe-api/main.py:52-55 | the reported column is the first of `name`, `map_url`, `img_url`, `location`, `seats`, in declaration order, that the form leaves absent, and there is none exactly when all five are present |
| CafeStore.AddCafe | cafe-api/main.py:102-117 | the add succeeds exactly when all NOT NULL text fields are present and the name is not already in the table. It then inserts one new row under a fresh id with the form's values, with each flag true exactly when its form value is a non-empty string (`Truthy`, Python's `bool()` at lines 107-110), and leaves the other rows alone. A missing text field is a NOT NULL failure on the first missing column. A complete form with a taken name is a UNIQUE failure. A failure leaves the table unchanged |
| CafeStore.UpdatePrice | cafe-api/main.py:122-128 | for an existing id only that row's `coffee_price` changes, to the new value, and every other row and field stays as it was; an id outside SQLite's 64-bit range gives IdOutOfRange (the uncaught OverflowError) and an unknown id in range gives NotFound, each leaving the table unchanged |
| CafeStore.EffectiveKey | cafe-api/main.py:133 | the key used is the query's `api_key` when it is present and non-empty, else the `X-API_KEY` header |
| CafeStore.RemoveCafeAsWritten | cafe-api/main.py:133-143 | the route as written: deletion happens exactly when the supplied key equals API_KEY as Python values and the id is in SQLite's 64-bit range and exists, and it removes exactly that row; a mismatched key gives NoApiKey, a matching key with an out-of-range id gives IdOutOfRange, and an unknown id gives NotFound, each leaving the table unchanged |
| CafeStore.RemoveAsWrittenFailsOpen | cafe-api/main.py:133-134 | with API_KEY unset and no key in the request, the route as written deletes any stored row |
| CafeStore.RemoveCafe | cafe-api/main.py:133-143 | the table changes only when a non-empty key is configured, the request supplies it, and the id is in range and exists; the result is then the old table minus that id; otherwise the table is unchanged, with distinct replies for a bad key, an out-of-range id and an unknown id |
| CafeStore.RemoveNeedsConfiguredKey | cafe-api/main.py:14 | without a configured key, whether API_KEY is unset or set to the empty string, every delete is refused and the table is unchanged |
| CafeStore.RemoveAgreesWhenKeyConfigured | cafe-api/main.py:134 | when API_KEY is set to a non-empty key, the corrected delete behaves exactly like the route as written |
| StoreLaws.AddPreservesValid | cafe-api/main.py:50-51 | adding keeps every row under its own id and names unique |
| StoreLaws.UpdatePreservesValid | cafe-api/main.py:124-125 | a price update keeps the table valid |
| StoreLaws.RemovePreservesValid | cafe-api/main.py:137-138 | a delete keeps the table valid, in both the as-written and the corrected version |
| StoreLaws.AddedCafeIsListed | cafe-api/main.py:114-115 | after a successful add, listing all rows shows the new row and every earlier row, and the count grows by one |
| StoreLaws.DuplicateNameKeepsSize | cafe-api/main.py:51 | adding a name already in the table fails, and the row count stays the same |
| StoreLaws.FalseStringSetsFlag | cafe-api/main.py:107 | a flag sent as the string `"false"` is stored as true |
| StoreLaws.UpdatedPriceIsListed | cafe-api/main.py:124-125 | after a successful update, listing all rows shows that row with the new price and every other field unchanged |
| StoreLaws.RemovedCafeIsNeverRead | cafe-api/main.py:137-138 | after a successful delete, by the route as written (`RemoveCafeAsWritten`) or by the corrected route (`RemoveCafe`), no list, search or random reply on the new table returns a row with that id |
| StoreLaws.BlueBottleScenario | cafe-api/main.py:102-143 | with a non-empty key, on an empty table: add a cafe (it gets id 1); search by location finds exactly it; update its price; delete it with the key, where the route as written and the corrected route give the same step; search finds nothing; a second delete gives NotFound under both |

## Left out

- Flask routing, `render_template` for `/`, `jsonify` rendering and HTTP status codes: the model takes already-extracted parameters and returns a typed reply. Flask's JSON provider sorts each dict's keys when rendering, so the declaration order proved for `to_dict` holds for the Python dict and not for the JSON text sent.
- The SQLAlchemy engine, sessions, `create_all` and the SQLite file: the table is a map. Transactions, durability and concurrent requests are not modelled.
- `load_dotenv` and `os.getenv`: API_KEY is a parameter (`None` when unset).
- `random.choice`: the drawn index is a parameter below the row count. Uniformity is not modelled. Only membership and reachability are proved.
- The `include_relationships` branch and the `isoformat` conversion of dates in `to_dict`: the `Cafe` table has no relationships and no date columns, so `Value` has no date kind.
- `String(250)` and `String(500)` lengths: SQLite does not enforce them.
- SQLite's rowid choice when the largest rowid is already 2^63-1 (it then picks an unused rowid at random): rowids are unbounded integers here.
- Flask's `<int:...>` converter admits only non-negative ids, and a path with a negative id never reaches the routes. The model accepts any integer id. A negative id in SQLite's range gets NotFound, where Flask would answer 404 before the route runs.
- The unused `itsdangerous.Serializer` import.

## Findings

| source | as written | input that shows it | evidently intended | confidence | as-written member | corrected member |
|---|---|---|---|---|---|---|
| cafe-api/main.py:133-134 | `api_key == API_KEY` compares the supplied key with `os.getenv("API_KEY")`; when the variable is unset both sides can be `None` | API_KEY not set; `DELETE /report-closed/1` with no `api_key` query value and no `X-API_KEY` header, row 1 present: `None == None` holds and row 1 is deleted (`RemoveAsWrittenFailsOpen`) | a delete is allowed only when a non-empty key is configured and the request supplies exactly that key. With API_KEY unset or set to the empty string (`API_KEY=`), nothing is deleted (`RemoveNeedsConfiguredKey`) | medium; not executed | CafeStore.RemoveCafeAsWritten | CafeStore.RemoveCafe |
