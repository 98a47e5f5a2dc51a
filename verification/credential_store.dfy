/**
 The persistent state the authentication service works against: the `users`
 table, the `refresh_tokens` table and the two serial counters that number
 their rows, together with the handful of SQL statements the service issues,
 each written as a pure function on that state. Password hashing is modelled
 here too, because the stored digest is part of a user row.
 */
module CredentialStore {
  import opened Wrappers

  /** The serial primary key of the `users` table. */
  type UserId = nat

  /** A point in time in milliseconds since the epoch (JavaScript's `Date`). */
  type Time = int

  /**
   A bcrypt digest. Salt and cost factor are abstracted away: all the model
   relies on is that a digest determines the password it was made from and
   that a password is checked only against a digest.
   */
  datatype Digest = Digest(preimage: string)

  /** `bcrypt.hash(password, salt)`. */
  function Hash(password: string): Digest
  {
    Digest(password)
  }

  /** `bcrypt.compare(password, digest)`. */
  predicate Compare(password: string, digest: Digest)
  {
    digest == Hash(password)
  }

  /** A stored digest accepts exactly the password it was made from. */
  lemma CompareAcceptsOnlyItsPassword(stored: string, attempt: string)
    ensures Compare(attempt, Hash(stored)) <==> attempt == stored
  {
  }

  /** A row of the `users` table. */
  datatype User = User(
    username: string,
    email: string,
    passwordHash: Digest,
    role: string,
    isActive: bool,
    firstName: Option<string>,
    lastName: Option<string>,
    bio: Option<string>,
    createdAt: Time)

  /** A row of the `refresh_tokens` table. */
  datatype RefreshRow = RefreshRow(id: nat, userId: UserId, token: string, expiresAt: Time)

  /**
   The database. A `SELECT` without `ORDER BY` promises no row order; the model
   keeps refresh-token rows in insertion order and takes the first match. Which
   match is taken matters only outside `Valid`, which makes emails and tokens
   unique, so that a lookup has at most one row to return.
   */
  datatype Store = Store(
    users: map<UserId, User>,
    refreshTokens: seq<RefreshRow>,
    nextUserId: nat,
    nextTokenId: nat)

  /** The PostgreSQL error code of a unique-constraint violation. */
  const UniqueViolation: string := "23505"

  // ----- constraints of the schema -----

  ghost predicate UniqueEmails(users: map<UserId, User>)
  {
    forall a, b :: a in users && b in users && users[a].email == users[b].email ==> a == b
  }

  ghost predicate UniqueUsernames(users: map<UserId, User>)
  {
    forall a, b :: a in users && b in users && users[a].username == users[b].username ==> a == b
  }

  /** No two rows agree on `key`. */
  ghost predicate DistinctBy<K>(rows: seq<RefreshRow>, key: RefreshRow -> K)
  {
    forall i, j :: 0 <= i < j < |rows| ==> key(rows[i]) != key(rows[j])
  }

  /**
   The database respects its constraints: user ids and row ids come from
   their serial counters, usernames and emails are unique, and so are
   refresh-token row ids and token values.
   */
  ghost predicate Valid(st: Store)
  {
    && (forall id :: id in st.users ==> id < st.nextUserId)
    && UniqueEmails(st.users)
    && UniqueUsernames(st.users)
    && (forall i :: 0 <= i < |st.refreshTokens| ==> st.refreshTokens[i].id < st.nextTokenId)
    && DistinctBy(st.refreshTokens, (r: RefreshRow) => r.id)
    && DistinctBy(st.refreshTokens, (r: RefreshRow) => r.token)
  }

  // ----- the users table -----

  /** Some existing user already has this username or this email. */
  predicate Taken(users: map<UserId, User>, username: string, email: string)
  {
    exists id :: id in users && (users[id].username == username || users[id].email == email)
  }

  /** `SELECT * FROM users WHERE email = $1`, first row. */
  function FindUserByEmail(users: map<UserId, User>, email: string): (r: Option<UserId>)
    requires UniqueEmails(users)
    ensures r.Some? ==> r.value in users && users[r.value].email == email
    ensures r.None? ==> forall id :: id in users ==> users[id].email != email
  {
    if exists id :: id in users && users[id].email == email then
      var id :| id in users && users[id].email == email;
      Some(id)
    else
      None
  }

  /**
   `INSERT INTO users ... RETURNING id`. `fault` is a failure the driver
   reports independently of the data (a lost connection, a violated check
   constraint, ...), given by its error code; otherwise the insert fails
   exactly when the unique constraints on username or email would be broken.
   */
  function InsertUser(st: Store, user: User, fault: Option<string>): (r: Result<(Store, UserId), string>)
    ensures r.Err? <==> fault.Some? || Taken(st.users, user.username, user.email)
    ensures r.Err? && fault.None? ==> r.error == UniqueViolation
    ensures r.Ok? ==>
      var (st', id) := r.value;
      && (Valid(st) ==> id !in st.users)
      && st'.users == st.users[id := user]
      && st'.refreshTokens == st.refreshTokens
  {
    match fault
    case Some(code) => Err(code)
    case None =>
      if Taken(st.users, user.username, user.email) then Err(UniqueViolation)
      else
        var id := st.nextUserId;
        var st' := st.(users := st.users[id := user], nextUserId := id + 1);
        Ok((st', id))
  }

  // ----- the refresh_tokens table -----

  /** The rows of `xs` that satisfy `p`, in order. */
  function Keep<T>(xs: seq<T>, p: T -> bool): (r: seq<T>)
    ensures forall k :: 0 <= k < |r| ==> r[k] in xs && p(r[k])
    ensures forall k :: 0 <= k < |xs| && p(xs[k]) ==> xs[k] in r
    ensures |r| <= |xs|
    decreases |xs|
  {
    if |xs| == 0 then []
    else (if p(xs[0]) then [xs[0]] else []) + Keep(xs[1..], p)
  }

  /** `SELECT * FROM refresh_tokens WHERE user_id = $1`. */
  function RowsOf(rows: seq<RefreshRow>, uid: UserId): seq<RefreshRow>
  {
    Keep(rows, (r: RefreshRow) => r.userId == uid)
  }

  /** `DELETE FROM refresh_tokens WHERE user_id = $1`. */
  function DeleteRowsOfUser(rows: seq<RefreshRow>, uid: UserId): seq<RefreshRow>
  {
    Keep(rows, (r: RefreshRow) => r.userId != uid)
  }

  /** `DELETE FROM refresh_tokens WHERE id = $1`. */
  function DeleteRowById(rows: seq<RefreshRow>, id: nat): seq<RefreshRow>
  {
    Keep(rows, (r: RefreshRow) => r.id != id)
  }

  /** `INSERT INTO refresh_tokens (user_id, token, expires_at)`. */
  function InsertRefreshRow(st: Store, uid: UserId, token: string, expiresAt: Time): (st': Store)
    ensures st'.users == st.users
    ensures st'.refreshTokens == st.refreshTokens + [RefreshRow(st.nextTokenId, uid, token, expiresAt)]
    ensures st'.nextTokenId > st.nextTokenId
  {
    st.(refreshTokens := st.refreshTokens + [RefreshRow(st.nextTokenId, uid, token, expiresAt)],
        nextTokenId := st.nextTokenId + 1)
  }

  /** `SELECT * FROM refresh_tokens WHERE token = $1`, first row. */
  function FindRefreshToken(rows: seq<RefreshRow>, token: string): (r: Option<RefreshRow>)
    ensures r.Some? ==> r.value in rows && r.value.token == token
    ensures r.None? <==> forall i :: 0 <= i < |rows| ==> rows[i].token != token
    decreases |rows|
  {
    if |rows| == 0 then None
    else if rows[0].token == token then Some(rows[0])
    else FindRefreshToken(rows[1..], token)
  }

  // ----- lemmas about the table operations -----

  lemma {:induction false} KeepAppend<T>(a: seq<T>, b: seq<T>, p: T -> bool)
    ensures Keep(a + b, p) == Keep(a, p) + Keep(b, p)
    decreases |a|
  {
    if |a| > 0 {
      assert (a + b)[1..] == a[1..] + b;
      KeepAppend(a[1..], b, p);
    } else {
      assert a + b == b;
    }
  }

  /** Dropping the first row keeps the rest distinct. */
  lemma DistinctTail<K>(rows: seq<RefreshRow>, key: RefreshRow -> K)
    requires |rows| > 0
    requires DistinctBy(rows, key)
    ensures DistinctBy(rows[1..], key)
  {
    var tail := rows[1..];
    forall i, j | 0 <= i < j < |tail|
      ensures key(tail[i]) != key(tail[j])
    {
      assert tail[i] == rows[i + 1] && tail[j] == rows[j + 1];
    }
  }

  /** The first row differs on `key` from every later row it kept company with. */
  lemma HeadDiffersFromKept<K>(rows: seq<RefreshRow>, p: RefreshRow -> bool, key: RefreshRow -> K, x: RefreshRow)
    requires |rows| > 0
    requires DistinctBy(rows, key)
    requires x in Keep(rows[1..], p)
    ensures key(rows[0]) != key(x)
  {
    var kept := Keep(rows[1..], p);
    var j :| 0 <= j < |kept| && kept[j] == x;
    var k :| 0 <= k < |rows[1..]| && rows[1..][k] == x;
    assert rows[k + 1] == x;
  }

  /** Filtering keeps rows distinct on any key on which they were distinct. */
  lemma {:induction false} KeepPreservesDistinct<K>(rows: seq<RefreshRow>, p: RefreshRow -> bool, key: RefreshRow -> K)
    requires DistinctBy(rows, key)
    ensures DistinctBy(Keep(rows, p), key)
    decreases |rows|
  {
    if |rows| > 0 {
      DistinctTail(rows, key);
      KeepPreservesDistinct(rows[1..], p, key);
      var kept := Keep(rows[1..], p);
      if p(rows[0]) {
        var r := [rows[0]] + kept;
        forall i, j | 0 <= i < j < |r|
          ensures key(r[i]) != key(r[j])
        {
          if i == 0 {
            assert r[j] == kept[j - 1];
            HeadDiffersFromKept(rows, p, key, kept[j - 1]);
          } else {
            assert r[i] == kept[i - 1] && r[j] == kept[j - 1];
          }
        }
      }
    }
  }

  /** Deleting a user's rows leaves none of theirs and all of everyone else's. */
  lemma {:induction false} DeleteRowsOfUserEffect(rows: seq<RefreshRow>, uid: UserId, other: UserId)
    ensures RowsOf(DeleteRowsOfUser(rows, uid), uid) == []
    ensures other != uid ==> RowsOf(DeleteRowsOfUser(rows, uid), other) == RowsOf(rows, other)
    decreases |rows|
  {
    if |rows| > 0 {
      DeleteRowsOfUserEffect(rows[1..], uid, other);
      var head := if rows[0].userId != uid then [rows[0]] else [];
      KeepAppend(head, DeleteRowsOfUser(rows[1..], uid), (r: RefreshRow) => r.userId == uid);
      KeepAppend(head, DeleteRowsOfUser(rows[1..], uid), (r: RefreshRow) => r.userId == other);
    }
  }

  /** A new row is the only row of its owner once the owner's old rows are gone. */
  lemma SingleSessionAfterReplace(rows: seq<RefreshRow>, row: RefreshRow, other: UserId)
    ensures RowsOf(DeleteRowsOfUser(rows, row.userId) + [row], row.userId) == [row]
    ensures other != row.userId ==>
      RowsOf(DeleteRowsOfUser(rows, row.userId) + [row], other) == RowsOf(rows, other)
  {
    DeleteRowsOfUserEffect(rows, row.userId, other);
    KeepAppend(DeleteRowsOfUser(rows, row.userId), [row], (r: RefreshRow) => r.userId == row.userId);
    KeepAppend(DeleteRowsOfUser(rows, row.userId), [row], (r: RefreshRow) => r.userId == other);
  }

  /** Deleting a row by its id removes that row and only that row. */
  lemma DeleteRowByIdEffect(rows: seq<RefreshRow>, i: nat)
    requires i < |rows|
    requires DistinctBy(rows, (r: RefreshRow) => r.id)
    ensures DeleteRowById(rows, rows[i].id) == rows[..i] + rows[i + 1..]
  {
    var id := rows[i].id;
    var p := (r: RefreshRow) => r.id != id;
    var before, after := rows[..i], rows[i + 1..];
    assert rows == before + [rows[i]] + after;
    assert forall k :: 0 <= k < |before| ==> p(before[k]) by {
      forall k | 0 <= k < |before|
        ensures p(before[k])
      {
        assert before[k] == rows[k];
      }
    }
    assert forall k :: 0 <= k < |after| ==> p(after[k]) by {
      forall k | 0 <= k < |after|
        ensures p(after[k])
      {
        assert after[k] == rows[i + 1 + k];
      }
    }
    KeepDropsOne(before, rows[i], after, p);
  }

  /** Filtering out exactly one element of a sequence. */
  lemma KeepDropsOne<T>(before: seq<T>, x: T, after: seq<T>, p: T -> bool)
    requires forall k :: 0 <= k < |before| ==> p(before[k])
    requires forall k :: 0 <= k < |after| ==> p(after[k])
    requires !p(x)
    ensures Keep(before + [x] + after, p) == before + after
  {
    assert Keep([x], p) == [] by {
      assert [x][1..] == [];
    }
    KeepAll(before, p);
    KeepAppend(before, [x], p);
    var front := Keep(before + [x], p);
    assert front == before;
    KeepAll(after, p);
    KeepAppend(before + [x], after, p);
  }

  /** Filtering with a predicate every row satisfies changes nothing. */
  lemma {:induction false} KeepAll<T>(xs: seq<T>, p: T -> bool)
    requires forall k :: 0 <= k < |xs| ==> p(xs[k])
    ensures Keep(xs, p) == xs
    decreases |xs|
  {
    if |xs| > 0 {
      KeepAll(xs[1..], p);
    }
  }

  /** With distinct tokens, looking up a stored row's token finds that very row. */
  lemma {:induction false} FindStoredToken(rows: seq<RefreshRow>, i: nat)
    requires i < |rows|
    requires DistinctBy(rows, (r: RefreshRow) => r.token)
    ensures FindRefreshToken(rows, rows[i].token) == Some(rows[i])
    decreases |rows|
  {
    if i > 0 && rows[0].token != rows[i].token {
      DistinctTail(rows, (r: RefreshRow) => r.token);
      FindStoredToken(rows[1..], i - 1);
    }
  }

  /** Once the row holding a token is deleted, the token is no longer found. */
  lemma TokenGoneAfterDelete(rows: seq<RefreshRow>, row: RefreshRow)
    requires row in rows
    requires DistinctBy(rows, (r: RefreshRow) => r.token)
    ensures FindRefreshToken(DeleteRowById(rows, row.id), row.token).None?
  {
  }
}
