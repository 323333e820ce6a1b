/**
 Model of the alias -> URL store in internal/storage/sqlite/sqlite.go.

 The store is one SQL table `url(id INTEGER PRIMARY KEY, alias TEXT NOT NULL
 UNIQUE, url TEXT NOT NULL)`. The model keeps the table's semantics, not the
 driver: the table is a map from alias to its row, so the UNIQUE constraint
 on `alias` holds by construction, and the PRIMARY KEY constraint on `id` is
 the invariant `DistinctIds`. The three statements the store issues (INSERT,
 SELECT, DELETE) are the functions `Insert`, `Lookup` and `Remove` on table
 values; the class `Storage` holds the table and updates it in place.
 */
module UrlStorage {

  /** The error kinds the store reports. `UrlExist` and `UrlNotFound` stand
      for errors wrapping the sentinels `storage.ErrUrlExist` and
      `storage.ErrUrlNotFound`; `DeleteFailed` for the error a DELETE that
      affected no row returns, which wraps neither. */
  datatype StorageError = UrlExist | UrlNotFound | DeleteFailed

  datatype Result<T> = Ok(value: T) | Err(error: StorageError)

  /** What `DeleteUrl` returns: a nil error or an error of some kind. */
  datatype Outcome = Success | Failure(error: StorageError)

  /** The columns of a row other than its alias. */
  datatype Row = Row(id: int, url: string)

  /** The `url` table, keyed by its UNIQUE column `alias`. */
  type Table = map<string, Row>

  /** The PRIMARY KEY constraint: no two live rows share an id. */
  ghost predicate DistinctIds(t: Table)
  {
    forall a, b :: a in t && b in t && a != b ==> t[a].id != t[b].id
  }

  function Ids(t: Table): set<int>
  {
    set a | a in t :: t[a].id
  }

  lemma IdsNonEmpty(t: Table)
    requires t != map[]
    ensures Ids(t) != {}
  {
    var a :| a in t;
    assert t[a].id in Ids(t);
  }

  lemma PickOne(s: set<int>) returns (x: int)
    requires s != {}
    ensures x in s
  {
    // `s != {}` alone does not give the solver a witness for the choice
    // below; this case split on the empty case supplies it
    if forall y :: y !in s {
      assert false;
    }
    x :| x in s;
  }

  /** Every non-empty finite set of integers has a largest element. */
  lemma {:induction false} HasLargest(s: set<int>)
    requires s != {}
    ensures exists m :: m in s && forall y :: y in s ==> y <= m
  {
    var x := PickOne(s);
    if s == {x} {
      assert forall y :: y in s ==> y <= x;
    } else {
      var rest := s - {x};
      assert s == rest + {x};
      HasLargest(rest);
      var m :| m in rest && forall y :: y in rest ==> y <= m;
      if x <= m {
        assert forall y :: y in s ==> y <= m;
      } else {
        assert forall y :: y in s ==> y <= x;
      }
    }
  }

  function Largest(s: set<int>): (m: int)
    requires s != {}
    ensures m in s && forall y :: y in s ==> y <= m
  {
    HasLargest(s);
    var m :| m in s && forall y :: y in s ==> y <= m;
    m
  }

  /** The id SQLite gives a row inserted without one into a table whose
      INTEGER PRIMARY KEY is not AUTOINCREMENT: one more than the largest id
      in the table, or 1 when the table is empty. It exceeds every live id,
      so it is a fresh primary key. */
  function NextRowId(t: Table): (id: int)
    ensures forall a :: a in t ==> t[a].id < id
    ensures t == map[] ==> id == 1
  {
    if t == map[] then 1
    else
      IdsNonEmpty(t);
      var m := Largest(Ids(t));
      assert forall a :: a in t ==> t[a].id in Ids(t);
      m + 1
  }

  /** `SELECT url FROM url WHERE alias = ?`: the url of the row with that
      alias, or `UrlNotFound` when no row matches. */
  function Lookup(t: Table, alias: string): (r: Result<string>)
    ensures r.Ok? <==> alias in t
    ensures r.Err? ==> r.error == UrlNotFound
  {
    if alias in t then Ok(t[alias].url) else Err(UrlNotFound)
  }

  /** `INSERT INTO url(url, alias) values (?,?)`: the result `SaveUrl`
      returns, and the table afterwards. */
  function Insert(t: Table, url: string, alias: string): (out: (Result<int>, Table))
    // the UNIQUE constraint fires exactly when the alias is taken, and then
    // nothing changes, not even the url already stored under it
    ensures out.0 == Err(UrlExist) <==> alias in t
    ensures out.0.Ok? <==> alias !in t
    ensures out.0.Err? ==> out.1 == t
    // otherwise the insert succeeds: exactly one row is added, and a lookup finds its url
    ensures out.0.Ok? ==> out.1.Keys == t.Keys + {alias}
    ensures out.0.Ok? ==> out.1[alias].id == out.0.value && Lookup(out.1, alias) == Ok(url)
    ensures out.0.Ok? ==> forall a :: a in t ==> out.1[a] == t[a]
    // the id returned is not the id of any other live row
    ensures out.0.Ok? ==> forall a :: a in t ==> t[a].id != out.0.value
    ensures DistinctIds(t) ==> DistinctIds(out.1)
  {
    if alias in t then (Err(UrlExist), t)
    else
      var id := NextRowId(t);
      (Ok(id), t[alias := Row(id, url)])
  }

  /** `DELETE FROM url WHERE alias = ?`: the outcome `DeleteUrl` returns, and
      the table afterwards. */
  function Remove(t: Table, alias: string): (out: (Outcome, Table))
    // a row was affected exactly when the alias was present
    ensures out.0 == Success <==> alias in t
    ensures out.0.Failure? ==> out.0.error == DeleteFailed && out.1 == t
    // exactly that row is removed; all others keep their id and url
    ensures out.1.Keys == t.Keys - {alias}
    ensures forall a :: a in out.1 ==> out.1[a] == t[a]
    ensures Lookup(out.1, alias) == Err(UrlNotFound)
    ensures DistinctIds(t) ==> DistinctIds(out.1)
  {
    if alias in t then (Success, t - {alias}) else (Failure(DeleteFailed), t)
  }

  /** Saving an alias that is taken leaves the first url in place. */
  lemma SaveTwiceKeepsFirst(t: Table, url1: string, url2: string, alias: string)
    requires alias !in t
    ensures var t1 := Insert(t, url1, alias).1;
            Insert(t1, url2, alias) == (Err(UrlExist), t1) &&
            Lookup(t1, alias) == Ok(url1)
  {
  }

  /** Deleting is not idempotent: the second delete of an alias fails and
      changes nothing. */
  lemma DeleteTwiceFails(t: Table, alias: string)
    requires alias in t
    ensures var (o1, t1) := Remove(t, alias);
            o1 == Success && Remove(t1, alias) == (Failure(DeleteFailed), t1)
  {
  }

  /** Ids are not promised never to be reused: with no AUTOINCREMENT, saving
      into a table whose only row was deleted gives the deleted row's id
      again. */
  lemma IdReusedAfterDelete(url1: string, url2: string)
    ensures var (r1, t1) := Insert(map[], url1, "a");
            var t2 := Remove(t1, "a").1;
            r1 == Ok(1) && Insert(t2, url2, "b").0 == Ok(1)
  {
  }

  /** The store: a handle on the one `url` table, whose rows `SaveUrl` and
      `DeleteUrl` change in place. The method bodies update the field step by
      step, as the statements do; each is proved equal to its functional
      definition above (`Insert`, `Lookup`, `Remove`). */
  class Storage {
    var rows: Table

    ghost predicate Valid()
      reads this
    {
      DistinctIds(rows)
    }

    /** `New` opens the database and runs `CREATE TABLE IF NOT EXISTS`, which
        keeps the rows already there: the store starts from any valid table. */
    constructor (existing: Table)
      requires DistinctIds(existing)
      ensures Valid() && rows == existing
    {
      rows := existing;
    }

    method SaveUrl(urlToSave: string, alias: string) returns (r: Result<int>)
      requires Valid()
      modifies this
      ensures Valid()
      ensures (r, rows) == Insert(old(rows), urlToSave, alias)
    {
      if alias in rows {
        r := Err(UrlExist);
      } else {
        var id := NextRowId(rows);
        rows := rows[alias := Row(id, urlToSave)];
        r := Ok(id);
      }
    }

    method GetUrl(urlAlias: string) returns (r: Result<string>)
      ensures r == Lookup(rows, urlAlias)
    {
      if urlAlias in rows {
        r := Ok(rows[urlAlias].url);
      } else {
        r := Err(UrlNotFound);
      }
    }

    method DeleteUrl(urlAlias: string) returns (r: Outcome)
      requires Valid()
      modifies this
      ensures Valid()
      ensures (r, rows) == Remove(old(rows), urlAlias)
    {
      if urlAlias in rows {
        rows := rows - {urlAlias};
        r := Success;
      } else {
        r := Failure(DeleteFailed);
      }
    }
  }

  /** A client session through the class interface alone: save, read back,
      refuse a duplicate, delete, and refuse a second delete. */
  method SaveGetDeleteSession(s: Storage, url1: string, url2: string, alias: string)
    returns (saved: Result<int>, dup: Result<int>, got: Result<string>, del1: Outcome, del2: Outcome, gone: Result<string>)
    requires s.Valid() && alias !in s.rows
    modifies s
    ensures saved.Ok? && dup == Err(UrlExist) && got == Ok(url1)
    ensures del1 == Success && del2 == Failure(DeleteFailed) && gone == Err(UrlNotFound)
    ensures s.Valid() && s.rows == old(s.rows)
  {
    saved := s.SaveUrl(url1, alias);
    dup := s.SaveUrl(url2, alias);
    got := s.GetUrl(alias);
    del1 := s.DeleteUrl(alias);
    del2 := s.DeleteUrl(alias);
    gone := s.GetUrl(alias);
  }
}
