# URL shortener core in Dafny

This project models the two components of the URL-shortening service that
carry its behaviour:

- **The mapping store** (`storage.dfy`, module `UrlStorage`). It models
  `internal/storage/sqlite/sqlite.go`. The store wraps one SQL table,
  `url(id INTEGER PRIMARY KEY, alias TEXT NOT NULL UNIQUE, url TEXT NOT NULL)`.
  The model keeps the table's semantics, not the SQL driver.
  - The table is a `map<string, Row>` from alias to `Row(id, url)`, so the
    UNIQUE constraint on `alias` holds by construction.
  - The PRIMARY KEY constraint is the invariant `DistinctIds`.
  - The three statements the store issues are functions on table values.
    `Insert` is the INSERT, `Lookup` the SELECT and `Remove` the DELETE.
  - The class `Storage` holds the table in a mutable field. Its methods
    `SaveUrl`, `GetUrl` and `DeleteUrl` are proved against those functions.
  - Errors are kinds, not messages. `UrlExist` stands for an error wrapping
    `storage.ErrUrlExist`. `UrlNotFound` stands for an error wrapping
    `storage.ErrUrlNotFound`. `DeleteFailed` is the error of a DELETE that
    affected no row, and it wraps neither sentinel.
  - A new row's id follows SQLite's documented rule for a non-AUTOINCREMENT
    `INTEGER PRIMARY KEY`: one more than the largest id in the table, or 1
    when the table is empty (`NextRowId`).
- **The alias generator** (`random.dfy`, module `RandomAlias`). It models
  `internal/lib/random/random.go`. `NewRandomString` fills a fresh character
  array slot by slot. Each slot gets the character of the 62-symbol alphabet
  at the index `rand.Intn(62)` returned. The pseudo-random source is a
  parameter, `draws`: the values it returns during the call, one per slot.
  Go's `len` of the result counts UTF-8 bytes, so it is modelled as
  `Utf8Length`.

Two behaviours of the code that a reader might not expect:

- Ids can be reused. The schema has no AUTOINCREMENT, so the next insert gets
  one more than the largest id still in the table. A deleted row's id can
  therefore be handed out again (`IdReusedAfterDelete`). The model promises
  only that a new id differs from every live row's id.
- Deleting an absent alias is a generic error (`DeleteFailed`), not a
  not-found error. So a second delete of the same alias fails, and delete is
  not idempotent (`DeleteTwiceFails`).

## Model

| member | source | states |
|---|---|---|
| `UrlStorage.NextRowId` | internal/storage/sqlite/sqlite.go:24-28 | The id given to an inserted row exceeds the id of every live row, so it is a fresh primary key; on an empty table it is 1. |
| `UrlStorage.Insert` | internal/storage/sqlite/sqlite.go:44-71 | The result is `UrlExist` exactly when the alias is already present, and then the table, including that alias's url, is unchanged. The result is `Ok` exactly when the alias is absent, and then exactly the row alias ↦ (id, url) is added, every other row is unchanged, a lookup of the alias gives the url, the id differs from every other live id, and the PRIMARY KEY invariant is kept. |
| `UrlStorage.Lookup` | internal/storage/sqlite/sqlite.go:73-93 | The lookup succeeds exactly when the alias is present; otherwise the error is `UrlNotFound`. |
| `UrlStorage.Remove` | internal/storage/sqlite/sqlite.go:95-113 | The delete succeeds exactly when the alias is present. Afterwards exactly that alias is gone, the other rows are unchanged, and a lookup of the alias gives `UrlNotFound`. On an absent alias the error is `DeleteFailed` and the table is unchanged. The PRIMARY KEY invariant is kept. |
| `UrlStorage.SaveTwiceKeepsFirst` | internal/storage/sqlite/sqlite.go:54-60 | Saving an alias a second time fails with `UrlExist`, changes nothing, and the alias still maps to the first url. |
| `UrlStorage.DeleteTwiceFails` | internal/storage/sqlite/sqlite.go:108-110 | The first delete of a present alias succeeds; a second delete of it fails with `DeleteFailed` and changes nothing. |
| `UrlStorage.IdReusedAfterDelete` | internal/storage/sqlite/sqlite.go:24-28 | Save "a" into an empty table, delete it, then save "b": both saves return id 1. |
| `UrlStorage.Storage.constructor` | internal/storage/sqlite/sqlite.go:16-42 | The store starts from any table that satisfies the PRIMARY KEY invariant and keeps its rows, as `CREATE TABLE IF NOT EXISTS` does. |
| `UrlStorage.Storage.SaveUrl` | internal/storage/sqlite/sqlite.go:44-71 | The returned result and the new table are those of `Insert` on the old table; the invariant is kept. |
| `UrlStorage.Storage.GetUrl` | internal/storage/sqlite/sqlite.go:73-93 | Returns the result of `Lookup` on the current table and changes nothing. |
| `UrlStorage.Storage.DeleteUrl` | internal/storage/sqlite/sqlite.go:95-113 | The returned outcome and the new table are those of `Remove` on the old table; the invariant is kept. |
| `UrlStorage.SaveGetDeleteSession` | internal/storage/sqlite/sqlite.go:44-113 | Through the class alone: save a fresh alias, a duplicate save fails with `UrlExist`, a get returns the first url, a delete succeeds, a second delete fails with `DeleteFailed`, a get then gives `UrlNotFound`, and the table is back to what it was. |
| `RandomAlias.AlphabetShape` | internal/lib/random/random.go:6-8 | The alphabet has exactly 62 pairwise distinct characters, all below 0x80. A character is in it exactly when it is an ASCII letter or digit. |
| `RandomAlias.Utf8Length` | internal/lib/random/random.go:15 | The UTF-8 byte length of a string is between one and four times its character count. |
| `RandomAlias.AsciiUtf8Length` | internal/lib/random/random.go:15 | A string of ASCII characters has as many UTF-8 bytes as characters. |
| `RandomAlias.AlphanumericUtf8Length` | internal/lib/random/random_test.go:38-44 | A string of ASCII letters and digits, such as a generated alias, has as many UTF-8 bytes as characters. So the byte length the test checks with `len` equals the requested size. |
| `RandomAlias.GeneratedByteLength` | internal/lib/random/random_test.go:38-44 | Any string that meets `NewRandomString`'s postcondition for `size` and `draws` has exactly `size` UTF-8 bytes, so the test's `len` check holds. |
| `RandomAlias.NewRandomString` | internal/lib/random/random.go:5-16 | The result has exactly `size` characters, so `size == 0` gives the empty string. Character `i` is the alphabet character at the `i`-th drawn index, so every character is an ASCII letter or digit. |

## Left out

- Driver failures are not modelled: errors from `sql.Open`, `Prepare` and `Exec`, and the `LastInsertId` failure after a successful insert. They depend on the SQLite engine and the connection.
- The error `RowsAffected` may return is ignored by the code. It is not modelled.
- `New`: opening the database and creating the schema is I/O. Its failure paths are not modelled. The constructor starts from an existing table.
- Error message text (the `op` prefixes, the alias in the delete message) is not modelled. Only error kinds are.
- The secondary index `idx_alias` affects only performance.
- NextRowId: ids are unbounded integers. SQLite's behaviour once the largest id reaches 2^63-1 is not modelled: it then picks a random unused id or fails with SQLITE_FULL.
- NewRandomString: `size` is a `nat`. Go's `make` panics on a negative size, and the model treats that as a precondition.
- NewRandomString: `rand.Intn` is not modelled. Its results are the parameter `draws`, each assumed to lie in `[0, 62)` as `rand.Intn` promises. The distribution of the draws, and the test's expectation that two calls give different strings, are out of scope.
- The HTTP handlers and `cmd/url-shortener/main.go` are not part of this model. The handlers compare errors with the sentinels by identity, while the store returns them wrapped. So with this store, the duplicate-alias and not-found cases fall to the handlers' generic branch.
- Aliases and urls are Dafny strings: sequences of Unicode scalar values. Go strings are byte strings, and SQLite compares TEXT byte by byte. A byte string that is not valid UTF-8, such as a percent-decoded alias reaching `GetUrl` or `DeleteUrl`, cannot be expressed in the model. On valid UTF-8 the two notions of equality agree.
- Concurrency between requests is left to the storage engine and is not modelled.
