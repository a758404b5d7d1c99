/**
 The two lookup helpers of the TinyApp URL shortener: finding a user record
 by email in the user table (keyed by user id), and selecting the entries of
 the URL table (keyed by short code) that belong to one user.
 */
module Helpers {
  import opened Tables

  /** `null` or an object. */
  datatype Option<T> = None | Some(value: T)

  /** A record of the user table. */
  datatype User = User(id: string, email: string, password: string)

  /** A record of the URL table: the long URL a short code stands for and the id of its owner. */
  datatype UrlEntry = UrlEntry(longURL: string, userID: string)

  // ---------------------------------------------------------------------------
  // getUserByEmail

  /** The first user, in iteration order, whose email is exactly `email`. */
  function FirstWithEmail(email: string, users: Table<User>): Option<User>
  {
    if users == [] then None
    else if users[0].1.email == email then Some(users[0].1)
    else FirstWithEmail(email, users[1..])
  }

  /** The first matching entry is the result: a match at `i` with no match before it determines the lookup. */
  lemma {:induction false} FirstMatchIsResult(email: string, users: Table<User>, i: nat)
    requires i < |users| && users[i].1.email == email
    requires forall j :: 0 <= j < i ==> users[j].1.email != email
    ensures FirstWithEmail(email, users) == Some(users[i].1)
  {
    if i > 0 {
      assert users[0].1.email != email;
      FirstMatchIsResult(email, users[1..], i - 1);
    }
  }

  /** The lookup yields nothing exactly when no user has that email. */
  lemma {:induction false} NoneIffNoMatch(email: string, users: Table<User>)
    ensures FirstWithEmail(email, users) == None
            <==> forall i :: 0 <= i < |users| ==> users[i].1.email != email
  {
    if users != [] {
      NoneIffNoMatch(email, users[1..]);
      if users[0].1.email != email {
        forall i | 0 < i < |users| && users[i].1.email == email
          ensures users[1..][i - 1].1.email == email
        {
        }
      }
    }
  }

  /** A found user is an entry of the table, has exactly the queried email, and no earlier entry has it. */
  lemma {:induction false} FoundIsFirstMatch(email: string, users: Table<User>)
    requires FirstWithEmail(email, users).Some?
    ensures exists i :: 0 <= i < |users| && users[i].1 == FirstWithEmail(email, users).value
                        && users[i].1.email == email
                        && forall j :: 0 <= j < i ==> users[j].1.email != email
  {
    if users[0].1.email != email {
      FoundIsFirstMatch(email, users[1..]);
      var i :| 0 <= i < |users[1..]| && users[1..][i].1 == FirstWithEmail(email, users[1..]).value
               && users[1..][i].1.email == email
               && forall j :: 0 <= j < i ==> users[1..][j].1.email != email;
      assert users[i + 1] == users[1..][i];
      forall j | 0 <= j < i + 1 ensures users[j].1.email != email {
        if j > 0 { assert users[j] == users[1..][j - 1]; }
      }
    } else {
      assert users[0].1 == FirstWithEmail(email, users).value;
    }
  }

  /** Seen through the table's map view (user id to record), a found user is stored under some id. */
  lemma FoundIsStored(email: string, users: Table<User>)
    requires UniqueKeys(users) && FirstWithEmail(email, users).Some?
    ensures exists id :: id in ToMap(users) && ToMap(users)[id] == FirstWithEmail(email, users).value
                         && ToMap(users)[id].email == email
  {
    FoundIsFirstMatch(email, users);
    var i :| 0 <= i < |users| && users[i].1 == FirstWithEmail(email, users).value && users[i].1.email == email;
    ToMapAt(users, i);
  }

  /** When emails are unique (as registration is meant to keep them), looking up a registered email yields that user. */
  lemma RegisteredEmailFound(users: Table<User>, i: nat)
    requires i < |users|
    requires forall a, b :: 0 <= a < b < |users| ==> users[a].1.email != users[b].1.email
    ensures FirstWithEmail(users[i].1.email, users) == Some(users[i].1)
  {
    FirstMatchIsResult(users[i].1.email, users, i);
  }

  /** getUserByEmail: scan the table in order and return the first user whose email is exactly `email` (case-sensitive), else null. */
  method GetUserByEmail(email: string, users: Table<User>) returns (r: Option<User>)
    ensures r == FirstWithEmail(email, users)
    ensures r == None <==> forall i :: 0 <= i < |users| ==> users[i].1.email != email
    ensures r.Some? ==> r.value.email == email
  {
    var i := 0;
    while i < |users|
      invariant 0 <= i <= |users|
      invariant forall j :: 0 <= j < i ==> users[j].1.email != email
    {
      if email == users[i].1.email {
        FirstMatchIsResult(email, users, i);
        return Some(users[i].1);
      }
      i := i + 1;
    }
    NoneIffNoMatch(email, users);
    return None;
  }

  // ---------------------------------------------------------------------------
  // urlsForUser

  /** The entries of `db` owned by `id`, in their original order. */
  function OwnedBy(id: string, db: Table<UrlEntry>): Table<UrlEntry>
  {
    if db == [] then []
    else OwnedBy(id, db[..|db| - 1]) + (if db[|db| - 1].1.userID == id then [db[|db| - 1]] else [])
  }

  /** The map view of the selection: exactly the codes of `db` whose record is owned by `id`, each with its record. */
  function OwnedMap(id: string, m: map<string, UrlEntry>): map<string, UrlEntry>
  {
    map k | k in m && m[k].userID == id :: m[k]
  }

  /** `a` occurs in `b` in order: `idx` gives the strictly increasing positions in `b` of the elements of `a`. */
  ghost predicate Embeds<T>(idx: seq<nat>, a: seq<T>, b: seq<T>)
  {
    && |idx| == |a|
    && (forall i :: 0 <= i < |idx| ==> idx[i] < |b| && b[idx[i]] == a[i])
    && (forall i, j :: 0 <= i < j < |idx| ==> idx[i] < idx[j])
  }

  /** `a` is `b` with some elements removed and the rest kept in order. */
  ghost predicate SubsequenceOf<T>(a: seq<T>, b: seq<T>)
  {
    exists idx :: Embeds(idx, a, b)
  }

  /** An entry is selected exactly when it is an entry of `db` owned by `id`: selected records are the stored ones, unchanged. */
  lemma {:induction false} OwnedByEntries(id: string, db: Table<UrlEntry>)
    ensures forall e :: e in OwnedBy(id, db) <==> e in db && e.1.userID == id
  {
    if db != [] {
      var init := db[..|db| - 1];
      OwnedByEntries(id, init);
      assert db == init + [db[|db| - 1]];
    }
  }

  /** Selecting keeps the relative order of the entries it retains, and so the result is no larger than `db`. */
  lemma {:induction false} OwnedByEmbedding(id: string, db: Table<UrlEntry>) returns (idx: seq<nat>)
    ensures Embeds(idx, OwnedBy(id, db), db)
  {
    if db == [] {
      idx := [];
    } else {
      var n := |db| - 1;
      var init := db[..n];
      var prev := OwnedByEmbedding(id, init);
      if db[n].1.userID == id {
        idx := prev + [n];
      } else {
        idx := prev;
      }
    }
  }

  /** A sequence embedded in order in another is no longer than it. */
  lemma EmbedsBound<T>(idx: seq<nat>, a: seq<T>, b: seq<T>)
    requires Embeds(idx, a, b)
    ensures |a| <= |b|
  {
    var i := 0;
    while i < |idx|
      invariant 0 <= i <= |idx|
      invariant forall j :: 0 <= j < i ==> j <= idx[j]
    {
      if i > 0 { assert idx[i - 1] < idx[i]; }
      i := i + 1;
    }
    if |idx| > 0 { assert |idx| - 1 <= idx[|idx| - 1]; }
  }

  /** The selection is a sub-table of `db`: in order, no larger, and with no key outside `db`. */
  lemma OwnedBySubTable(id: string, db: Table<UrlEntry>)
    ensures SubsequenceOf(OwnedBy(id, db), db)
    ensures |OwnedBy(id, db)| <= |db|
    ensures Keys(OwnedBy(id, db)) <= Keys(db)
  {
    var r := OwnedBy(id, db);
    var idx := OwnedByEmbedding(id, db);
    EmbedsBound(idx, r, db);
    forall k | k in Keys(r) ensures k in Keys(db) {
      var i :| 0 <= i < |r| && r[i].0 == k;
      assert db[idx[i]].0 == k;
    }
  }

  /** Selecting from an object gives a valid object again: no code appears twice in the result. */
  lemma OwnedByUniqueKeys(id: string, db: Table<UrlEntry>)
    requires UniqueKeys(db)
    ensures UniqueKeys(OwnedBy(id, db))
  {
    var r := OwnedBy(id, db);
    var idx := OwnedByEmbedding(id, db);
    forall i, j | 0 <= i < j < |r| ensures r[i].0 != r[j].0 {
      assert r[i] == db[idx[i]] && r[j] == db[idx[j]] && idx[i] < idx[j];
    }
  }

  /** Selection distributes over concatenation. */
  lemma {:induction false} OwnedByAppend(id: string, a: Table<UrlEntry>, b: Table<UrlEntry>)
    ensures OwnedBy(id, a + b) == OwnedBy(id, a) + OwnedBy(id, b)
  {
    if b != [] {
      var n := |b| - 1;
      OwnedByAppend(id, a, b[..n]);
      assert (a + b)[..|a + b| - 1] == a + b[..n];
    } else {
      assert a + b == a;
    }
  }

  /** Filtering the result again with the same id gives the same table. */
  lemma {:induction false} OwnedByIdempotent(id: string, db: Table<UrlEntry>)
    ensures OwnedBy(id, OwnedBy(id, db)) == OwnedBy(id, db)
  {
    if db != [] {
      var n := |db| - 1;
      var last: Table<UrlEntry> := if db[n].1.userID == id then [db[n]] else [];
      OwnedByIdempotent(id, db[..n]);
      OwnedByAppend(id, OwnedBy(id, db[..n]), last);
      if last != [] {
        assert OwnedBy(id, last) == OwnedBy(id, []) + last;
      }
    }
  }

  /** With unique keys in `db`, the selection's map view holds exactly the owned codes, each with its record from `db`. */
  lemma OwnedByMap(id: string, db: Table<UrlEntry>)
    requires UniqueKeys(db)
    ensures ToMap(OwnedBy(id, db)) == OwnedMap(id, ToMap(db))
  {
    var r := OwnedBy(id, db);
    OwnedByUniqueKeys(id, db);
    OwnedByEntries(id, db);
    ToMapDomain(r);
    ToMapDomain(db);
    var lhs, rhs := ToMap(r), OwnedMap(id, ToMap(db));
    forall k | k in lhs ensures k in rhs && lhs[k] == rhs[k] {
      var i :| 0 <= i < |r| && r[i].0 == k;
      assert r[i] in r;
      var j :| 0 <= j < |db| && db[j] == r[i];
      ToMapAt(r, i);
      ToMapAt(db, j);
    }
    forall k | k in rhs ensures k in lhs {
      var j :| 0 <= j < |db| && db[j].0 == k;
      ToMapAt(db, j);
      assert db[j] in r;
    }
  }

  /** urlsForUser: build a fresh table by assigning, in iteration order, every entry of `db` whose owner is exactly `id`. */
  method UrlsForUser(id: string, db: Table<UrlEntry>) returns (userUrls: Table<UrlEntry>)
    requires UniqueKeys(db)
    ensures userUrls == OwnedBy(id, db)
    ensures UniqueKeys(userUrls)
    ensures ToMap(userUrls) == OwnedMap(id, ToMap(db))
  {
    userUrls := [];
    var i := 0;
    while i < |db|
      invariant 0 <= i <= |db|
      invariant userUrls == OwnedBy(id, db[..i])
    {
      var (url, entry) := db[i];
      assert db[..i + 1][..i] == db[..i];
      if entry.userID == id {
        assert url !in Keys(userUrls) by {
          OwnedByEntries(id, db[..i]);
        }
        PutFresh(userUrls, url, entry);
        userUrls := Put(userUrls, url, entry);
      }
      i := i + 1;
    }
    assert db[..|db|] == db;
    OwnedByUniqueKeys(id, db);
    OwnedByMap(id, db);
  }
}
