/**
 * The user-record store of the authentication service (db.py).
 *
 * The store is one table of user records in insertion order. The pure
 * functions below specify its operations on a sequence of records; the
 * class `DB` holds that sequence as mutable state and its methods are
 * proved to behave as the functions say.
 */
module UserDb {
  import opened Wrappers

  /** A value given as a keyword argument. `Null` stands for Python's `None`,
      which the ORM turns into an `IS NULL` test or a NULL column. */
  datatype Value = Int(i: int) | Str(s: string) | Null

  /** One row of the users table. */
  datatype User = User(
    id: int,
    email: string,
    hashedPassword: string,
    sessionId: Option<string>,
    resetToken: Option<string>)

  /** One `name=value` keyword argument. */
  datatype Pair = Pair(key: string, value: Value)

  /** What a store or authentication operation hands back: a record, or the
      exception the source raises. `NotFound` is `NoResultFound`,
      `InvalidRequest` is `InvalidRequestError`, `BadAttribute` is the
      `ValueError` of `update_user`, `AlreadyExists` the `ValueError` of
      `register_user`; `Rejected` is an update the database refuses to commit. */
  datatype Result =
    | Ok(user: User)
    | NotFound
    | InvalidRequest
    | BadAttribute
    | Rejected
    | AlreadyExists

  /** The attribute names `find_user_by` recognises (the keys of `user_attrs`). */
  const Columns: set<string> := {"id", "email", "hashed_password", "session_id", "reset_token"}

  predicate Known(key: string) {
    key in Columns
  }

  function OptionValue(o: Option<string>): Value {
    match o
    case None => Null
    case Some(s) => Str(s)
  }

  /** The value of a recognised column of a record. */
  function Attr(u: User, key: string): (v: Value)
    requires Known(key)
    ensures Fits(Pair(key, v))
  {
    if key == "id" then Int(u.id)
    else if key == "email" then Str(u.email)
    else if key == "hashed_password" then Str(u.hashedPassword)
    else if key == "session_id" then OptionValue(u.sessionId)
    else OptionValue(u.resetToken)
  }

  /** The record passes the filter `column == value`. */
  predicate Satisfies(u: User, c: Pair) {
    Known(c.key) && Attr(u, c.key) == c.value
  }

  /** The record passes every filter (the filters are conjunctive). */
  predicate SatisfiesAll(u: User, cs: seq<Pair>) {
    forall j :: 0 <= j < |cs| ==> Satisfies(u, cs[j])
  }

  predicate AllKnown(cs: seq<Pair>) {
    forall j :: 0 <= j < |cs| ==> Known(cs[j].key)
  }

  /** The records that pass every filter, in store order: a filtered query. */
  function Select(users: seq<User>, cs: seq<Pair>): (r: seq<User>)
    ensures |r| <= |users|
  {
    if users == [] then []
    else (if SatisfiesAll(users[0], cs) then [users[0]] else []) + Select(users[1..], cs)
  }

  /** A filtered query holds exactly the stored records that pass every filter. */
  lemma {:induction false} SelectMembers(users: seq<User>, cs: seq<Pair>)
    ensures forall u :: u in Select(users, cs) <==> u in users && SatisfiesAll(u, cs)
  {
    if users != [] {
      SelectMembers(users[1..], cs);
      assert users == [users[0]] + users[1..];
    }
  }

  lemma {:induction false} SelectNoFilter(users: seq<User>)
    ensures Select(users, []) == users
  {
    if users != [] {
      SelectNoFilter(users[1..]);
    }
  }

  /** Filtering an already filtered query is filtering by both lists at once. */
  lemma {:induction false} SelectSelect(users: seq<User>, a: seq<Pair>, b: seq<Pair>)
    ensures Select(Select(users, a), b) == Select(users, a + b)
  {
    if users != [] {
      var u := users[0];
      assert SatisfiesAll(u, a + b) <==> SatisfiesAll(u, a) && SatisfiesAll(u, b) by {
        if SatisfiesAll(u, a) && SatisfiesAll(u, b) {
          forall j | 0 <= j < |a + b| ensures Satisfies(u, (a + b)[j]) {
            if j < |a| { assert (a + b)[j] == a[j]; } else { assert (a + b)[j] == b[j - |a|]; }
          }
        }
        if SatisfiesAll(u, a + b) {
          forall j | 0 <= j < |a| ensures Satisfies(u, a[j]) { assert (a + b)[j] == a[j]; }
          forall j | 0 <= j < |b| ensures Satisfies(u, b[j]) { assert (a + b)[|a| + j] == b[j]; }
        }
      }
      SelectSelect(users[1..], a, b);
      var head := if SatisfiesAll(u, a) then [u] else [];
      assert Select(users, a) == head + Select(users[1..], a);
      if SatisfiesAll(u, a) {
        assert Select(users, a)[0] == u && Select(users, a)[1..] == Select(users[1..], a);
      } else {
        assert Select(users, a) == Select(users[1..], a);
      }
    }
  }

  /** The head of a filtered query is the first record in store order that
      passes, and the query is empty exactly when no record passes. */
  lemma {:induction false} SelectHead(users: seq<User>, cs: seq<Pair>)
    ensures Select(users, cs) == [] <==> forall i :: 0 <= i < |users| ==> !SatisfiesAll(users[i], cs)
    ensures Select(users, cs) != [] ==>
      exists i :: 0 <= i < |users| && users[i] == Select(users, cs)[0] && SatisfiesAll(users[i], cs) &&
        forall j :: 0 <= j < i ==> !SatisfiesAll(users[j], cs)
  {
    if users != [] {
      SelectHead(users[1..], cs);
      if !SatisfiesAll(users[0], cs) {
        assert Select(users, cs) == Select(users[1..], cs);
        if Select(users, cs) != [] {
          var i :| 0 <= i < |users[1..]| && users[1..][i] == Select(users[1..], cs)[0] &&
            SatisfiesAll(users[1..][i], cs) && forall j :: 0 <= j < i ==> !SatisfiesAll(users[1..][j], cs);
          assert users[i + 1] == users[1..][i];
          forall j | 0 <= j < i + 1 ensures !SatisfiesAll(users[j], cs) {
            if j > 0 { assert users[j] == users[1..][j - 1]; }
          }
        } else {
          forall i | 0 <= i < |users| ensures !SatisfiesAll(users[i], cs) {
            if i > 0 { assert users[i] == users[1..][i - 1]; }
          }
        }
      } else {
        assert Select(users, cs)[0] == users[0];
      }
    }
  }

  /** `find_user_by`: an unknown attribute name raises `InvalidRequestError`
      whatever the store holds; otherwise the first record satisfying every
      filter, or `NoResultFound`. */
  function Find(users: seq<User>, cs: seq<Pair>): (r: Result)
    ensures r.Ok? || r.NotFound? || r.InvalidRequest?
    ensures r.InvalidRequest? <==> exists j :: 0 <= j < |cs| && !Known(cs[j].key)
    ensures r.NotFound? <==> AllKnown(cs) && forall i :: 0 <= i < |users| ==> !SatisfiesAll(users[i], cs)
    ensures r.Ok? ==>
      exists i :: 0 <= i < |users| && users[i] == r.user && SatisfiesAll(r.user, cs) &&
        forall j :: 0 <= j < i ==> !SatisfiesAll(users[j], cs)
  {
    if exists j :: 0 <= j < |cs| && !Known(cs[j].key) then InvalidRequest
    else
      SelectHead(users, cs);
      var matches := Select(users, cs);
      if matches == [] then NotFound else Ok(matches[0])
  }

  /** No two records share an id (the primary key). */
  ghost predicate UniqueIds(users: seq<User>) {
    forall i, j :: 0 <= i < j < |users| ==> users[i].id != users[j].id
  }

  /** No two records share an email. */
  ghost predicate UniqueEmails(users: seq<User>) {
    forall i, j :: 0 <= i < j < |users| ==> users[i].email != users[j].email
  }

  function MaxId(users: seq<User>): (m: int)
    requires users != []
    ensures forall i :: 0 <= i < |users| ==> users[i].id <= m
    ensures exists i :: 0 <= i < |users| && users[i].id == m
  {
    if |users| == 1 then users[0].id
    else
      var m := MaxId(users[1..]);
      assert forall i :: 1 <= i < |users| ==> users[i] == users[1..][i - 1];
      if users[0].id > m then users[0].id else m
  }

  /** The id the database gives a new row: one more than the largest id in
      the table, or 1 when the table is empty. */
  function NextId(users: seq<User>): (id: int)
    ensures forall i :: 0 <= i < |users| ==> users[i].id < id
  {
    if users == [] then 1 else MaxId(users) + 1
  }

  /** The record `add_user` creates: a fresh id, the given email and hashed
      password, and no session or reset token. */
  function NewUser(users: seq<User>, email: string, hashedPassword: string): (u: User)
    ensures u.email == email && u.hashedPassword == hashedPassword
    ensures u.sessionId == None && u.resetToken == None
    ensures forall i :: 0 <= i < |users| ==> users[i].id != u.id
    ensures UniqueIds(users) ==> UniqueIds(users + [u])
  {
    var u := User(NextId(users), email, hashedPassword, None, None);
    assert forall i :: 0 <= i < |users| ==> (users + [u])[i] == users[i];
    u
  }

  /** The value can be stored in the named column: an integer id, a string
      email and hashed password, a string or NULL session id and reset token. */
  predicate Fits(c: Pair) {
    if c.key == "id" then c.value.Int?
    else if c.key == "email" || c.key == "hashed_password" then c.value.Str?
    else Known(c.key) && (c.value.Str? || c.value.Null?)
  }

  /** `setattr(user, key, value)` on one recognised column. */
  function SetAttr(u: User, c: Pair): (r: Option<User>)
    ensures r.Some? <==> Fits(c)
    ensures r.Some? ==> Attr(r.value, c.key) == c.value
    ensures r.Some? ==> forall k :: Known(k) && k != c.key ==> Attr(r.value, k) == Attr(u, k)
  {
    if !Fits(c) then None
    else if c.key == "id" then Some(u.(id := c.value.i))
    else if c.key == "email" then Some(u.(email := c.value.s))
    else if c.key == "hashed_password" then Some(u.(hashedPassword := c.value.s))
    else if c.key == "session_id" then Some(u.(sessionId := if c.value.Str? then Some(c.value.s) else None))
    else Some(u.(resetToken := if c.value.Str? then Some(c.value.s) else None))
  }

  /** The changes of `update_user`, applied in argument order. */
  function ApplyChanges(u: User, cs: seq<Pair>): (r: Option<User>)
    ensures r.Some? <==> forall j :: 0 <= j < |cs| ==> Fits(cs[j])
    decreases |cs|
  {
    if cs == [] then Some(u)
    else match SetAttr(u, cs[0])
      case None => None
      case Some(v) =>
        assert forall j :: 1 <= j < |cs| ==> cs[j] == cs[1..][j - 1];
        ApplyChanges(v, cs[1..])
  }

  /** The value a dictionary of changes leaves for `key`: the last value
      given for it, or `current` when no change names it. */
  function LastValue(cs: seq<Pair>, key: string, current: Value): Value
  {
    if cs == [] then current
    else LastValue(cs[1..], key, if cs[0].key == key then cs[0].value else current)
  }

  /** After a successful update each column holds the last value the changes
      give it, and keeps its old value when no change names it. */
  lemma {:induction false} ApplyChangesAttr(u: User, cs: seq<Pair>, key: string)
    requires ApplyChanges(u, cs).Some? && Known(key)
    ensures Attr(ApplyChanges(u, cs).value, key) == LastValue(cs, key, Attr(u, key))
    decreases |cs|
  {
    if cs != [] {
      var v := SetAttr(u, cs[0]).value;
      ApplyChangesAttr(v, cs[1..], key);
    }
  }

  /** The position of the first record with the given id, or -1. */
  function IdIndex(users: seq<User>, id: int): (k: int)
    ensures -1 <= k < |users|
    ensures 0 <= k ==> users[k].id == id && forall i :: 0 <= i < k ==> users[i].id != id
    ensures k < 0 <==> forall i :: 0 <= i < |users| ==> users[i].id != id
  {
    if users == [] then -1
    else if users[0].id == id then 0
    else
      var k := IdIndex(users[1..], id);
      assert forall i :: 1 <= i < |users| ==> users[i] == users[1..][i - 1];
      if k < 0 then -1 else k + 1
  }

  /** Some record other than the one at position `k` has this id. */
  predicate IdTaken(users: seq<User>, k: int, id: int) {
    exists i :: 0 <= i < |users| && i != k && users[i].id == id
  }

  /** `update_user(user_id, **changes)`: an unrecognised key raises
      `ValueError` and changes nothing; otherwise the record with that id is
      looked up (`NoResultFound` if there is none), the changes are applied
      to it in order, and the updated record replaces it unless the database
      refuses the new values. Every failure leaves the store as it was. */
  function Update(users: seq<User>, id: int, cs: seq<Pair>): (r: (Result, seq<User>))
    ensures r.0.Ok? || r.0.NotFound? || r.0.BadAttribute? || r.0.Rejected?
    ensures r.0.BadAttribute? <==> exists j :: 0 <= j < |cs| && !Known(cs[j].key)
    ensures r.0.NotFound? <==> AllKnown(cs) && forall i :: 0 <= i < |users| ==> users[i].id != id
    ensures !r.0.Ok? ==> r.1 == users
    ensures r.0.Ok? ==>
      exists k :: 0 <= k < |users| && users[k].id == id &&
        ApplyChanges(users[k], cs) == Some(r.0.user) && r.1 == users[k := r.0.user]
    ensures r.0.Rejected? <==>
      && AllKnown(cs) && IdIndex(users, id) >= 0
      && (|| ApplyChanges(users[IdIndex(users, id)], cs).None?
          || IdTaken(users, IdIndex(users, id), ApplyChanges(users[IdIndex(users, id)], cs).value.id))
    ensures UniqueIds(users) ==> UniqueIds(r.1)
  {
    if exists j :: 0 <= j < |cs| && !Known(cs[j].key) then (BadAttribute, users)
    else
      var k := IdIndex(users, id);
      if k < 0 then (NotFound, users)
      else match ApplyChanges(users[k], cs)
        case None => (Rejected, users)
        case Some(u) => if IdTaken(users, k, u.id) then (Rejected, users) else (Ok(u), users[k := u])
  }

  /** With no criteria the lookup returns the first record, and raises
      `NoResultFound` only on an empty store. */
  lemma {:induction false} FindNoCriteria(users: seq<User>)
    ensures Find(users, []) == if users == [] then NotFound else Ok(users[0])
  {
    if users != [] {
      assert SatisfiesAll(users[0], []);
    }
  }

  /** Ids are a key: looking a record up by its own id finds that record. */
  lemma {:induction false} FindById(users: seq<User>, k: nat)
    requires UniqueIds(users) && k < |users|
    ensures Find(users, [Pair("id", Int(users[k].id))]) == Ok(users[k])
  {
    var cs := [Pair("id", Int(users[k].id))];
    assert SatisfiesAll(users[k], cs) by { assert cs[0] == Pair("id", Int(users[k].id)); }
    forall i | 0 <= i < |users| && i != k ensures !SatisfiesAll(users[i], cs) {
      assert !Satisfies(users[i], cs[0]);
    }
  }

  /** Updating one recognised column other than `id` with a value that fits
      it succeeds on a record that exists: that column takes the new value,
      every other column and every other record is as before. */
  lemma {:induction false} UpdateOneColumn(users: seq<User>, id: int, c: Pair)
    requires UniqueIds(users) && Fits(c) && c.key != "id"
    requires exists i :: 0 <= i < |users| && users[i].id == id
    ensures var k := IdIndex(users, id);
      var r := Update(users, id, [c]);
      && r.0.Ok? && r.0.user == SetAttr(users[k], c).value && r.1 == users[k := r.0.user]
      && Attr(r.0.user, c.key) == c.value
      && (forall key :: Known(key) && key != c.key ==> Attr(r.0.user, key) == Attr(users[k], key))
      && |r.1| == |users| && r.1[k] == r.0.user
      && (forall i :: 0 <= i < |users| && i != k ==> r.1[i] == users[i])
  {
    var k := IdIndex(users, id);
    assert AllKnown([c]);
    var u := SetAttr(users[k], c).value;
    assert ApplyChanges(users[k], [c]) == ApplyChanges(u, []);
    assert Attr(u, "id") == Attr(users[k], "id");
    assert !IdTaken(users, k, u.id);
  }

  /** The store: the users table as a sequence of records in insertion order. */
  class DB {
    var users: seq<User>

    ghost predicate Valid()
      reads this
    {
      UniqueIds(users)
    }

    /** `DB()` drops and recreates the table, so a new store is empty. */
    constructor ()
      ensures Valid() && users == []
    {
      users := [];
    }

    /** `add_user`: appends one record with a fresh id and returns it. */
    method AddUser(email: string, hashedPassword: string) returns (u: User)
      requires Valid()
      modifies this
      ensures Valid()
      ensures u == NewUser(old(users), email, hashedPassword)
      ensures users == old(users) + [u]
    {
      u := NewUser(users, email, hashedPassword);
      users := users + [u];
    }

    /** `find_user_by(**attributes)`: narrows the query one attribute at a
        time, then takes its first row. It only reads the store. */
    method FindUserBy(criteria: seq<Pair>) returns (r: Result)
      ensures r == Find(users, criteria)
    {
      var query := users;
      SelectNoFilter(users);
      var i := 0;
      while i < |criteria|
        invariant 0 <= i <= |criteria|
        invariant AllKnown(criteria[..i])
        invariant query == Select(users, criteria[..i])
      {
        if !Known(criteria[i].key) {
          return InvalidRequest;
        }
        SelectSelect(users, criteria[..i], [criteria[i]]);
        assert criteria[..i] + [criteria[i]] == criteria[..i + 1];
        query := Select(query, [criteria[i]]);
        i := i + 1;
      }
      assert criteria[..i] == criteria;
      if query == [] {
        return NotFound;
      }
      r := Ok(query[0]);
    }

    /** `update_user(user_id, **changes)`, as `Update` specifies it. */
    method UpdateUser(id: int, changes: seq<Pair>) returns (r: Result)
      requires Valid()
      modifies this
      ensures Valid()
      ensures (r, users) == Update(old(users), id, changes)
    {
      var (res, updated) := Update(users, id, changes);
      r, users := res, updated;
    }
  }
}
