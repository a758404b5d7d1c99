# TinyApp lookup helpers

TinyApp is a tutorial URL shortener. It keeps two in-memory tables:
- The user table maps a user id to `{ id, email, password }`.
- The URL table maps a short code to `{ longURL, userID }`.

`helpers.js` holds the two lookups that the request handlers run over these tables:

- `getUserByEmail(email, users)` walks the user table with `for...in`. It returns the first record whose `email` is strictly equal (`===`, so case-sensitive) to the query, or `null`.
- `urlsForUser(id, urlDatabase)` walks the URL table. It builds a fresh object holding every entry whose `userID` is strictly equal to `id`. Each record is copied by reference, so it is unchanged.

This project models both as Dafny methods with loops. Each loop is proved against a specification function, and the properties the helpers promise are proved as lemmas about those functions.

A JavaScript object used as a dictionary is modelled by `Tables.Table<V>`: the sequence of its (key, value) entries in `for...in` order. `Tables.UniqueKeys` holds for every real object, so the one method that depends on it requires it. `Tables.ToMap` is the object seen as a Dafny `map`. `Tables.Put` models property assignment `o[k] = v`: an existing key keeps its place and takes the new value, and a new key is appended to the sequence. JavaScript visits a new key last only in some cases; see `Tables.Put` under "## Left out". Tables are Dafny values, so neither helper can change its argument table. This matches the source, which only reads `users` and `urlDatabase`.

Files: `tables.dfy` (module `Tables`) and `helpers.dfy` (module `Helpers`).

## Model

| member | source | states |
|---|---|---|
| Helpers.GetUserByEmail | helpers.js:2-9 | Returns the first user in iteration order whose email equals the query. It returns null exactly when no user has that email. A returned user's email equals the query. |
| Helpers.FirstMatchIsResult | helpers.js:3-6 | A user whose email matches, with no matching user before it, is the lookup's result. So when several users share an email, the earliest one wins. |
| Helpers.NoneIffNoMatch | helpers.js:3-8 | The lookup is null if and only if no user in the table has exactly that email. |
| Helpers.FoundIsFirstMatch | helpers.js:3-6 | A found user is an entry of the table and its email equals the query exactly. No earlier entry matches. |
| Helpers.FoundIsStored | helpers.js:4-5 | In the id-to-record map view, a found user is the record stored under some user id. |
| Helpers.RegisteredEmailFound | helpers.js:2-9 | If emails are unique across the table, looking up any user's own email returns that user. |
| Helpers.UrlsForUser | helpers.js:13-21 | Returns the entries owned by `id`, in their original order. The result has unique keys. Its map view holds exactly the codes of the database whose record has `userID == id`, each with its stored record. |
| Helpers.OwnedByEntries | helpers.js:16-17 | A (code, record) entry is in the result if and only if it is an entry of the database owned by `id`. Records are carried over unchanged. |
| Helpers.OwnedByEmbedding | helpers.js:15-19 | The result occurs in the database in order, at strictly increasing positions. |
| Helpers.OwnedBySubTable | helpers.js:14-20 | For any table, the result is an ordered sub-table of the database. It is no larger and has no key outside the database. |
| Helpers.OwnedByUniqueKeys | helpers.js:14-19 | When the database's keys are unique, as in every object, no code appears twice in the result. |
| Helpers.OwnedByAppend | helpers.js:15-19 | Filtering two tables one after the other is the same as filtering each and concatenating the results. |
| Helpers.OwnedByIdempotent | helpers.js:14-20 | Filtering the result again with the same id gives the same table. |
| Helpers.OwnedByMap | helpers.js:15-19 | For a database with unique keys, the result's map view is the database's map restricted to the codes owned by `id`. |
| Tables.PutFresh | helpers.js:17 | Assigning a key the table does not hold yet appends the entry to the sequence. In the filter's loop this is where JavaScript places it; see `Tables.Put` under "## Left out". |
| Tables.PutToMap | helpers.js:17 | Property assignment agrees with map update: the new map view is the old one with the key bound to the value. |

## Left out

- `generateRandomString` (helpers.js:11 and express_server.js:17-19) is left out. It is built on `Math.random()` and converting a float to a base-36 string, which is randomness and floating point.
- express_server.js is left out. It is Express routing, body parsing, template rendering, logging and `app.listen`. Its table reads and writes are single property accesses inside handlers, and its `urlDatabase` maps codes to plain strings rather than to the `{ longURL, userID }` records that `urlsForUser` expects.
- `for...in` ordering is not derived. JavaScript visits array-index keys first, in ascending order, and then the other string keys in insertion order. A `Table` given to a helper is taken to list its entries in that visiting order. Nothing in `Table` enforces it.
- Tables.Put: appends a new key to the sequence. JavaScript visits a new key last only when it is not an array index, or when every key already held is a smaller array index. After `o = {abc: 1}; o["123456"] = 2`, JavaScript visits `"123456"` first, but `Put` lists it second, and short codes can be all digits. At helpers.js:17 this case never arises. The keys arrive in the database's visiting order, and the result holds a subsequence of the keys already visited. So each new key belongs after every key the result already holds, which is where `Put` places it.
- A missing table is not modelled. A `for...in` loop over `null` or `undefined` runs zero times, so `getUserByEmail(email, undefined)` returns `null` and `urlsForUser(id, undefined)` returns `{}`. A `Table` is always a sequence, so those calls cannot be stated.
- `for...in` also visits inherited enumerable properties. The model assumes plain objects with none.
- JavaScript objects are shared by reference. The model copies records by value, so it does not capture aliasing between the result of `urlsForUser` and the database.
- Records without an `email` or `userID` property, where the comparison would be against `undefined`, are not modelled. Every record has both fields.
