/** Properties that relate the route operations to one another and to the
    table's invariant. */
module StoreLaws {

  import opened Wrappers
  import opened Cafes
  import opened CafeStore

  /** A successful add keeps every row under its own id and names unique. */
  lemma AddPreservesValid(s: Store, f: CafeForm)
    requires Valid(s)
    ensures Valid(AddCafe(s, f).store)
  {
    var r := AddCafe(s, f);
    if r.reply.Added? {
      var c := r.reply.cafe;
      forall a, b | a in r.store && b in r.store && r.store[a].name == r.store[b].name
        ensures a == b
      {
        if a != c.id && b != c.id {
          assert r.store[a] == s[a] && r.store[b] == s[b];
        }
      }
    }
  }

  lemma UpdatePreservesValid(s: Store, id: int, newPrice: Option<string>)
    requires Valid(s)
    ensures Valid(UpdatePrice(s, id, newPrice).store)
  {
  }

  lemma RemovePreservesValid(s: Store, id: int, apiKey: Option<string>,
                             argKey: Option<string>, headerKey: Option<string>)
    requires Valid(s)
    ensures Valid(RemoveCafe(s, id, apiKey, argKey, headerKey).store)
    ensures Valid(RemoveCafeAsWritten(s, id, apiKey, argKey, headerKey).store)
  {
  }

  /** After a successful add, GET /all lists the new row and every row that
      was there before. */
  lemma AddedCafeIsListed(s: Store, f: CafeForm)
    requires AddCafe(s, f).reply.Added?
    ensures AddCafe(s, f).reply.cafe in GetAllCafes(AddCafe(s, f).store).reply.cafes
    ensures forall k :: k in s ==> s[k] in GetAllCafes(AddCafe(s, f).store).reply.cafes
    ensures |GetAllCafes(AddCafe(s, f).store).reply.cafes| == |s| + 1
  {
    var r := AddCafe(s, f);
    forall k | k in s
      ensures Stored(r.store, s[k])
    {
      assert r.store[k] == s[k];
    }
    assert Stored(r.store, r.reply.cafe) by {
      assert r.store[r.reply.cafe.id] == r.reply.cafe;
    }
  }

  /** A rejected add leaves the number of rows as it was. */
  lemma DuplicateNameKeepsSize(s: Store, f: CafeForm, existing: Cafe)
    requires Stored(s, existing)
    requires f.name == Some(existing.name)
    ensures !AddCafe(s, f).reply.Added?
    ensures |GetAllCafes(AddCafe(s, f).store).reply.cafes| == |s|
  {
  }

  /** Sending `"false"` for a flag sets it. */
  lemma FalseStringSetsFlag(s: Store, f: CafeForm)
    requires f.hasSockets == Some("false")
    requires AddCafe(s, f).reply.Added?
    ensures AddCafe(s, f).reply.cafe.hasSockets
  {
  }

  /** After an update of an existing row, GET /all shows that row with the
      new price and every other field as before. */
  lemma UpdatedPriceIsListed(s: Store, id: int, newPrice: Option<string>)
    requires Valid(s)
    ensures UpdatePrice(s, id, newPrice).reply == Updated ==>
      exists c :: (c in GetAllCafes(UpdatePrice(s, id, newPrice).store).reply.cafes
        && c.id == id && c.coffeePrice == newPrice && c.(coffeePrice := s[id].coffeePrice) == s[id])
  {
    var r := UpdatePrice(s, id, newPrice);
    if r.reply == Updated {
      assert Stored(r.store, r.store[id]);
    }
  }

  /** No read route on `t` returns a row with id `id`. */
  predicate NeverRead(t: Store, id: int, loc: Option<string>, pick: nat) {
    && (forall c :: c in GetAllCafes(t).reply.cafes ==> c.id != id)
    && (Search(t, loc).reply.Many? ==> forall c :: c in Search(t, loc).reply.cafes ==> c.id != id)
    && (pick < |t| ==> GetRandomCafe(t, pick).reply.cafe.id != id)
  }

  /** A valid table that has no row under `id` never returns one. */
  lemma AbsentIsNeverRead(t: Store, id: int, loc: Option<string>, pick: nat)
    requires Valid(t) && id !in t
    ensures NeverRead(t, id, loc, pick)
  {
    forall c | Stored(t, c)
      ensures c.id != id
    {
      RowUnderOwnId(t, c);
    }
  }

  /** Once a row is deleted, by the route as written or by the corrected
      one, no read route returns a row with its id. */
  lemma RemovedCafeIsNeverRead(s: Store, id: int, apiKey: Option<string>,
                               argKey: Option<string>, headerKey: Option<string>,
                               loc: Option<string>, pick: nat)
    requires Valid(s)
    ensures RemoveCafeAsWritten(s, id, apiKey, argKey, headerKey).reply == Removed ==>
      NeverRead(RemoveCafeAsWritten(s, id, apiKey, argKey, headerKey).store, id, loc, pick)
    ensures RemoveCafe(s, id, apiKey, argKey, headerKey).reply == Removed ==>
      NeverRead(RemoveCafe(s, id, apiKey, argKey, headerKey).store, id, loc, pick)
  {
    RemovePreservesValid(s, id, apiKey, argKey, headerKey);
    AbsentIsNeverRead(s - {id}, id, loc, pick);
  }

  /** Add "Blue Bottle" to an empty table, find it by location, change its
      price, delete it, and find nothing left to delete. */
  lemma BlueBottleScenario(key: string)
    requires key != ""
    ensures
      var form := CafeForm(Some("Blue Bottle"), Some("http://x"), Some("http://y"), Some("Downtown"),
                           Some("10-20"), Some("true"), Some("true"), None, None, Some("£2.50"));
      var added := AddCafe(map[], form);
      var updated := UpdatePrice(added.store, 1, Some("£3.00"));
      var removed := RemoveCafe(updated.store, 1, Some(key), None, Some(key));
      && added.reply.Added? && added.reply.cafe.id == 1
      && Search(added.store, Some("Downtown")).reply == Many([added.reply.cafe])
      && updated.reply == Updated && updated.store[1].coffeePrice == Some("£3.00")
      && removed.reply == Removed
      && RemoveCafeAsWritten(updated.store, 1, Some(key), None, Some(key)) == removed
      && Search(removed.store, Some("Downtown")).reply == Failed(NoCafesFound)
      && RemoveCafe(removed.store, 1, Some(key), None, Some(key)).reply == Failed(NotFound)
      && RemoveCafeAsWritten(removed.store, 1, Some(key), None, Some(key)).reply == Failed(NotFound)
  {
    var form := CafeForm(Some("Blue Bottle"), Some("http://x"), Some("http://y"), Some("Downtown"),
                         Some("10-20"), Some("true"), Some("true"), None, None, Some("£2.50"));
    var added := AddCafe(map[], form);
    var c := added.reply.cafe;
    assert c.id == 1;
    assert added.store == map[1 := c];
    var rows := AllRows(added.store);
    assert |rows| == 1 && rows[0] == c by {
      assert c in rows;
    }
    assert rows == [c];
    assert WithLocation(rows, Some("Downtown")) == [c];
  }
}
