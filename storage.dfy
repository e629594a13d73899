/**
 * The persistence layer: users, the planning buckets and the session
 * tokens, each table held by `DatabaseStorage` and changed in place by its
 * methods. The clock is an integer number of milliseconds passed in by the
 * caller.
 */
module Storage {
  import opened Wrappers
  import opened Values
  import opened Table

  /** A row of the `users` table. */
  datatype User = User(id: int, username: string, password: string, isAdmin: bool)

  /** A row of the `auth_tokens` table, keyed by its (unique) token text. */
  datatype TokenInfo = TokenInfo(userId: int, expiresAt: int)

  /** The first user whose id is `id`. */
  function UserWithId(users: seq<User>, id: int): (r: Option<User>)
    ensures r.None? <==> forall i :: 0 <= i < |users| ==> users[i].id != id
    ensures r.Some? ==> r.value.id == id && exists i :: 0 <= i < |users| && users[i] == r.value
  {
    if users == [] then None
    else if users[0].id == id then Some(users[0])
    else
      var r := UserWithId(users[1..], id);
      assert forall i :: 1 <= i < |users| ==> users[i] == users[1..][i - 1];
      r
  }

  /** The first user whose username is `name`. */
  function UserNamed(users: seq<User>, name: string): (r: Option<User>)
    ensures r.None? <==> forall i :: 0 <= i < |users| ==> users[i].username != name
    ensures r.Some? ==> r.value.username == name && exists i :: 0 <= i < |users| && users[i] == r.value
  {
    if users == [] then None
    else if users[0].username == name then Some(users[0])
    else
      var r := UserNamed(users[1..], name);
      assert forall i :: 1 <= i < |users| ==> users[i] == users[1..][i - 1];
      r
  }

  /** The `unique()` username and the primary-key id of the users table. */
  predicate UniqueUsers(users: seq<User>) {
    forall i, j :: 0 <= i < j < |users| ==> users[i].username != users[j].username && users[i].id != users[j].id
  }

  /** A user whose name and id are both new is found under either after being appended. */
  lemma {:induction false} AppendUser(users: seq<User>, u: User)
    requires forall i :: 0 <= i < |users| ==> users[i].username != u.username && users[i].id != u.id
    ensures UserNamed(users + [u], u.username) == Some(u)
    ensures UserWithId(users + [u], u.id) == Some(u)
  {
    if users != [] {
      assert (users + [u])[1..] == users[1..] + [u];
      AppendUser(users[1..], u);
    }
  }

  /** The users table's constraints: unique usernames and ids, every id positive and below the next serial value. */
  predicate UserTable(users: seq<User>, nextId: int) {
    UniqueUsers(users) && 1 <= nextId && forall i :: 0 <= i < |users| ==> 0 < users[i].id < nextId
  }

  /** Inserting a user with a new name under the next serial id keeps the constraints and makes the user findable. */
  lemma InsertUser(users: seq<User>, nextId: int, u: User)
    requires UserTable(users, nextId)
    requires UserNamed(users, u.username).None? && u.id == nextId
    ensures UserTable(users + [u], nextId + 1)
    ensures UserNamed(users + [u], u.username) == Some(u)
    ensures UserWithId(users + [u], u.id) == Some(u)
  {
    AppendUser(users, u);
    var r := users + [u];
    forall i, j | 0 <= i < j < |r| ensures r[i].username != r[j].username && r[i].id != r[j].id {
      assert r[i] == users[i];
      if j < |users| { assert r[j] == users[j]; }
    }
    forall i | 0 <= i < |r| ensures 0 < r[i].id < nextId + 1 {
      if i < |users| { assert r[i] == users[i]; }
    }
  }

  /** `result[0]?.data ?? fallback` for a keyed bucket: the payload of the first row for `k`. */
  function Lookup(rows: seq<Row<Value>>, k: string, fallback: Value): Value {
    match Select(rows, k)
    case None => fallback
    case Some(d) => Nullish(d, fallback)
  }

  /** Reading a keyed bucket after an upsert: only the saved key reads differently. */
  lemma LookupAfterUpsert(rows: seq<Row<Value>>, k: string, v: Value, q: string, fallback: Value)
    requires UniqueKeys(rows)
    ensures Lookup(Upsert(rows, k, v), q, fallback) == if q == k then Nullish(v, fallback) else Lookup(rows, q, fallback)
  {
    SelectAfterUpsert(rows, k, v, q);
  }

  /** A key with no row reads as the fallback. */
  lemma LookupMissing(rows: seq<Row<Value>>, k: string, fallback: Value)
    requires k !in KeysOf(rows)
    ensures Lookup(rows, k, fallback) == fallback
  {
    assert Select(rows, k).None?;
  }

  /** `result[0]?.data ?? null` for a singleton bucket. */
  function FirstData(rows: seq<Value>): Value {
    if |rows| > 0 then Nullish(rows[0], Null) else Null
  }

  /** The singleton upsert: update the first row if there is one, insert otherwise. */
  function SaveFirst(rows: seq<Value>, v: Value): (r: seq<Value>)
    ensures |r| == if |rows| == 0 then 1 else |rows|
    ensures r[0] == v
    ensures |rows| > 0 ==> r[1..] == rows[1..]
  {
    if |rows| > 0 then rows[0 := v] else [v]
  }

  /** Saving a singleton keeps at most one row and makes the saved value what is read back. */
  lemma SaveFirstSpec(rows: seq<Value>, v: Value)
    requires |rows| <= 1
    ensures SaveFirst(rows, v) == [v]
    ensures FirstData(SaveFirst(rows, v)) == Nullish(v, Null)
  {
  }

  /** `getUserIdByToken`'s answer: the owner of a token that exists and has not expired (`expiresAt < now` is expired). */
  function Resolve(tokens: map<string, TokenInfo>, token: string, now: int): (r: Option<int>)
    ensures r.Some? <==> token in tokens && now <= tokens[token].expiresAt
  {
    if token !in tokens then None
    else if tokens[token].expiresAt < now then None
    else Some(tokens[token].userId)
  }

  /** `getUserIdByToken`'s side effect: an expired token is deleted when it is looked up. */
  function Expire(tokens: map<string, TokenInfo>, token: string, now: int): (r: map<string, TokenInfo>)
    ensures r.Keys <= tokens.Keys
    ensures tokens.Keys - r.Keys <= {token}
    ensures forall t :: t in r ==> r[t] == tokens[t]
  {
    if token in tokens && tokens[token].expiresAt < now then tokens - {token} else tokens
  }

  /**
   * Looking a token up again at the same time gives the same answer and
   * deletes nothing more; no other token's answer changes, at any time.
   */
  lemma ResolveStable(tokens: map<string, TokenInfo>, token: string, now: int)
    ensures Resolve(Expire(tokens, token, now), token, now) == Resolve(tokens, token, now)
    ensures Expire(Expire(tokens, token, now), token, now) == Expire(tokens, token, now)
    ensures forall t, later :: t != token ==> Resolve(Expire(tokens, token, now), t, later) == Resolve(tokens, t, later)
  {
  }

  /** A lookup deletes exactly when the token exists and has expired; otherwise the table is unchanged. */
  lemma ExpireDeletes(tokens: map<string, TokenInfo>, token: string, now: int)
    ensures Expire(tokens, token, now) != tokens <==> token in tokens && tokens[token].expiresAt < now
    ensures Expire(tokens, token, now) != tokens ==> Expire(tokens, token, now) == tokens - {token}
  {
    if token in tokens && tokens[token].expiresAt < now {
      assert token !in Expire(tokens, token, now);
    }
  }

  /** `DELETE FROM auth_tokens WHERE user_id = userId`. */
  function WithoutUser(tokens: map<string, TokenInfo>, userId: int): map<string, TokenInfo> {
    map t | t in tokens && tokens[t].userId != userId :: tokens[t]
  }

  /** Afterwards no token resolves to that user, and every other user's tokens resolve as before. */
  lemma WithoutUserSpec(tokens: map<string, TokenInfo>, userId: int, t: string, now: int)
    ensures Resolve(WithoutUser(tokens, userId), t, now) != Some(userId)
    ensures t in tokens && tokens[t].userId != userId ==> Resolve(WithoutUser(tokens, userId), t, now) == Resolve(tokens, t, now)
    ensures t in tokens && tokens[t].userId == userId ==> Resolve(WithoutUser(tokens, userId), t, now).None?
  {
  }

  /** A deleted token never resolves again. */
  lemma DeletedTokenGone(tokens: map<string, TokenInfo>, token: string, t: string, now: int)
    ensures Resolve(tokens - {token}, token, now).None?
    ensures t != token ==> Resolve(tokens - {token}, t, now) == Resolve(tokens, t, now)
  {
  }

  class DatabaseStorage {
    var users: seq<User>
    /** The next value of the `users.id` serial. */
    var nextUserId: int
    var states: seq<Row<Value>>
    var comments: seq<Row<Value>>
    var notes: seq<Row<Value>>
    var params: seq<Value>
    var coverage: seq<Value>
    var tokens: map<string, TokenInfo>

    /**
     * The table constraints (unique week keys, unique usernames and ids
     * below the serial), plus the invariant the singleton upserts keep:
     * at most one `params` row and one `coverage` row.
     */
    predicate Valid()
      reads this
    {
      UniqueKeys(states) && UniqueKeys(comments) && UniqueKeys(notes)
      && |params| <= 1 && |coverage| <= 1
      && UserTable(users, nextUserId)
    }

    constructor ()
      ensures Valid()
      ensures users == [] && states == [] && comments == [] && notes == []
      ensures params == [] && coverage == [] && tokens == map[]
    {
      users := [];
      nextUserId := 1;
      states := [];
      comments := [];
      notes := [];
      params := [];
      coverage := [];
      tokens := map[];
    }

    function GetUser(id: int): Option<User>
      reads this
    {
      UserWithId(users, id)
    }

    function GetUserByUsername(username: string): Option<User>
      reads this
    {
      UserNamed(users, username)
    }

    /**
     * Inserts a user; the unique username makes a second user of the same
     * name fail (`None`), and a missing admin flag is stored as `false`.
     * The `serial` id is drawn before the unique check, so a failed insert
     * uses one up as well.
     */
    method CreateUser(username: string, password: string, isAdmin: Option<bool>) returns (r: Option<User>)
      requires Valid()
      modifies this`users, this`nextUserId
      ensures Valid()
      ensures old(GetUserByUsername(username)).Some? ==> r.None? && users == old(users) && nextUserId == old(nextUserId) + 1
      ensures old(GetUserByUsername(username)).None? ==>
                r == Some(User(old(nextUserId), username, password, isAdmin.GetOr(false)))
                && users == old(users) + [r.value]
                && nextUserId == old(nextUserId) + 1
                && GetUserByUsername(username) == r
                && GetUser(r.value.id) == r
    {
      if UserNamed(users, username).Some? {
        nextUserId := nextUserId + 1;
        return None;
      }
      var u := User(nextUserId, username, password, isAdmin.GetOr(false));
      InsertUser(users, nextUserId, u);
      users := users + [u];
      nextUserId := nextUserId + 1;
      return Some(u);
    }

    function GetPcpState(weekKey: string): Value
      reads this
    {
      Lookup(states, weekKey, Null)
    }

    /** Upserts the state of one week; only that week reads differently afterwards. */
    method SavePcpState(weekKey: string, data: Value)
      requires Valid()
      modifies this`states
      ensures Valid()
      ensures states == Upsert(old(states), weekKey, data)
      ensures ToMap(states) == ToMap(old(states))[weekKey := data]
      ensures GetPcpState(weekKey) == Nullish(data, Null)
      ensures forall k :: k != weekKey ==> GetPcpState(k) == old(GetPcpState(k))
    {
      ghost var before := states;
      var existing := Select(states, weekKey);
      if existing.Some? {
        states := UpdateWhere(states, weekKey, data);
      } else {
        states := states + [Row(weekKey, data)];
      }
      UpsertSpec(before, weekKey, data);
      forall k ensures Lookup(states, k, Null) == if k == weekKey then Nullish(data, Null) else Lookup(before, k, Null) {
        LookupAfterUpsert(before, weekKey, data, k, Null);
      }
    }

    /** Every state row, in table order. */
    method GetAllPcpStates() returns (r: seq<Row<Value>>)
      ensures r == states
    {
      r := states;
    }

    function GetPcpComments(weekKey: string): Value
      reads this
    {
      Lookup(comments, weekKey, Null)
    }

    /** Upserts the comments of one week; only that week reads differently afterwards. */
    method SavePcpComments(weekKey: string, data: Value)
      requires Valid()
      modifies this`comments
      ensures Valid()
      ensures comments == Upsert(old(comments), weekKey, data)
      ensures ToMap(comments) == ToMap(old(comments))[weekKey := data]
      ensures GetPcpComments(weekKey) == Nullish(data, Null)
      ensures forall k :: k != weekKey ==> GetPcpComments(k) == old(GetPcpComments(k))
    {
      ghost var before := comments;
      var existing := Select(comments, weekKey);
      if existing.Some? {
        comments := UpdateWhere(comments, weekKey, data);
      } else {
        comments := comments + [Row(weekKey, data)];
      }
      UpsertSpec(before, weekKey, data);
      forall k ensures Lookup(comments, k, Null) == if k == weekKey then Nullish(data, Null) else Lookup(before, k, Null) {
        LookupAfterUpsert(before, weekKey, data, k, Null);
      }
    }

    /** Every week's comments as a dictionary keyed by week; a week keyed `__proto__` is not stored in it. */
    method GetAllPcpComments() returns (out: map<string, Value>)
      requires Valid()
      ensures out.Keys == KeysOf(comments) - {ProtoKey}
      ensures forall i :: 0 <= i < |comments| && comments[i].key != ProtoKey ==> out[comments[i].key] == comments[i].value
    {
      out := Collect(comments);
    }

    function GetPcpNotes(weekKey: string): Value
      reads this
    {
      Lookup(notes, weekKey, Str(""))
    }

    /** Upserts the notes of one week; only that week reads differently afterwards. */
    method SavePcpNotes(weekKey: string, text: Value)
      requires Valid()
      modifies this`notes
      ensures Valid()
      ensures notes == Upsert(old(notes), weekKey, text)
      ensures ToMap(notes) == ToMap(old(notes))[weekKey := text]
      ensures GetPcpNotes(weekKey) == Nullish(text, Str(""))
      ensures forall k :: k != weekKey ==> GetPcpNotes(k) == old(GetPcpNotes(k))
    {
      ghost var before := notes;
      var existing := Select(notes, weekKey);
      if existing.Some? {
        notes := UpdateWhere(notes, weekKey, text);
      } else {
        notes := notes + [Row(weekKey, text)];
      }
      UpsertSpec(before, weekKey, text);
      forall k ensures Lookup(notes, k, Str("")) == if k == weekKey then Nullish(text, Str("")) else Lookup(before, k, Str("")) {
        LookupAfterUpsert(before, weekKey, text, k, Str(""));
      }
    }

    /** Every week's notes as a dictionary keyed by week; a week keyed `__proto__` is not stored in it. */
    method GetAllPcpNotes() returns (out: map<string, Value>)
      requires Valid()
      ensures out.Keys == KeysOf(notes) - {ProtoKey}
      ensures forall i :: 0 <= i < |notes| && notes[i].key != ProtoKey ==> out[notes[i].key] == notes[i].value
    {
      out := Collect(notes);
    }

    function GetPcpParams(): Value
      reads this
    {
      FirstData(params)
    }

    /** Updates the first `params` row, or inserts one into an empty table. */
    method SavePcpParams(data: Value)
      requires Valid()
      modifies this`params
      ensures Valid()
      ensures params == SaveFirst(old(params), data) == [data]
      ensures GetPcpParams() == Nullish(data, Null)
    {
      if |params| > 0 {
        params := params[0 := data];
      } else {
        params := [data];
      }
    }

    function GetPcpCoverage(): Value
      reads this
    {
      FirstData(coverage)
    }

    /** Updates the first `coverage` row, or inserts one into an empty table. */
    method SavePcpCoverage(data: Value)
      requires Valid()
      modifies this`coverage
      ensures Valid()
      ensures coverage == SaveFirst(old(coverage), data) == [data]
      ensures GetPcpCoverage() == Nullish(data, Null)
    {
      if |coverage| > 0 {
        coverage := coverage[0 := data];
      } else {
        coverage := [data];
      }
    }

    /** Inserts a token row; the unique token column makes inserting an existing token fail. */
    method SaveToken(token: string, userId: int, expiresAt: int) returns (ok: bool)
      modifies this`tokens
      ensures ok <==> token !in old(tokens)
      ensures ok ==> tokens == old(tokens)[token := TokenInfo(userId, expiresAt)]
      ensures !ok ==> tokens == old(tokens)
    {
      if token in tokens {
        return false;
      }
      tokens := tokens[token := TokenInfo(userId, expiresAt)];
      return true;
    }

    /** The owner of a live token; an expired token is deleted on the way. */
    method GetUserIdByToken(token: string, now: int) returns (r: Option<int>)
      modifies this`tokens
      ensures r == Resolve(old(tokens), token, now)
      ensures tokens == Expire(old(tokens), token, now)
    {
      if token !in tokens {
        return None;
      }
      var info := tokens[token];
      if info.expiresAt < now {
        tokens := tokens - {token};
        return None;
      }
      return Some(info.userId);
    }

    method DeleteToken(token: string)
      modifies this`tokens
      ensures tokens == old(tokens) - {token}
    {
      tokens := tokens - {token};
    }

    method DeleteUserTokens(userId: int)
      modifies this`tokens
      ensures tokens == WithoutUser(old(tokens), userId)
    {
      tokens := map t | t in tokens && tokens[t].userId != userId :: tokens[t];
    }
  }
}
