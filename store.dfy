/**
 The in-memory user store and the five request handlers of the user
 service. Each handler is one atomic read-check-write on the dictionary
 `db`; `order` holds the dictionary's keys in insertion order, which is the
 order in which `users_db.items()` and `users_db.values()` are iterated.
 */
module UserServer {

  import opened Wrappers
  import opened UserModel

  /** No key occurs twice. */
  ghost predicate Distinct(s: seq<string>)
  {
    forall i, j :: 0 <= i < j < |s| ==> s[i] != s[j]
  }

  /** The position of `x` in `s`: its first occurrence. */
  function IndexOf(s: seq<string>, x: string): (k: nat)
    requires x in s
    ensures k < |s| && s[k] == x
    ensures x !in s[..k]
  {
    if s[0] == x then 0 else 1 + IndexOf(s[1..], x)
  }

  /** Removing one position from a sequence of distinct keys keeps the rest
      distinct and drops exactly that key. */
  lemma RemoveAt(s: seq<string>, k: nat)
    requires Distinct(s) && k < |s|
    ensures Distinct(s[..k] + s[k + 1..])
    ensures forall y :: y in s[..k] + s[k + 1..] <==> y in s && y != s[k]
  {
  }

  class UserStore {
    /** `users_db`. */
    var db: Db
    /** The keys of `db` in first-insertion order. */
    var order: seq<string>
    /** `hash_password`. */
    const hash: Hasher
    /** The `EmailStr` validation of the request models. */
    const checkEmail: EmailValidator

    /** The dictionary and its key order agree, and each record's id is its key. */
    ghost predicate Valid()
      reads this
    {
      && IdsMatchKeys(db)
      && Distinct(order)
      && |order| == |db|
      && (forall i :: 0 <= i < |order| ==> order[i] in db)
      && (forall k :: k in db ==> k in order)
    }

    /** The store at server start: empty. */
    constructor (hash: Hasher, checkEmail: EmailValidator)
      ensures Valid()
      ensures db == map[] && order == []
      ensures this.hash == hash && this.checkEmail == checkEmail
    {
      this.db := map[];
      this.order := [];
      this.hash := hash;
      this.checkEmail := checkEmail;
    }

    /** The membership test `email in [user["email"] for user in users_db.values()]`. */
    method IsEmailTaken(email: string) returns (taken: bool)
      requires Valid()
      ensures taken <==> EmailInUse(db, email)
    {
      taken := false;
      var i := 0;
      while i < |order|
        invariant 0 <= i <= |order|
        invariant taken <==> exists j :: 0 <= j < i && db[order[j]].email == email
      {
        if db[order[i]].email == email {
          taken := true;
        }
        i := i + 1;
      }
      if EmailInUse(db, email) {
        var k :| k in db && db[k].email == email;
        var j := IndexOf(order, k);
        assert db[order[j]].email == email;
      }
    }

    /** `GetUsers`: every stored record once, in insertion order; the page
        and page size of the request are ignored. */
    method GetUsers(page: int, pageSize: int) returns (status: Status, users: seq<Record>, totalCount: nat)
      requires Valid()
      ensures status == OK
      ensures totalCount == |users| == |db|
      ensures forall i :: 0 <= i < |users| ==> users[i] == db[order[i]]
      ensures forall k :: k in db ==> exists i :: 0 <= i < |users| && users[i] == db[k]
      ensures forall i, j :: 0 <= i < j < |users| ==> users[i].id != users[j].id
    {
      users := [];
      var i := 0;
      while i < |order|
        invariant 0 <= i <= |order|
        invariant |users| == i
        invariant forall j :: 0 <= j < i ==> users[j] == db[order[j]]
      {
        users := users + [db[order[i]]];
        i := i + 1;
      }
      forall k | k in db ensures exists i :: 0 <= i < |users| && users[i] == db[k] {
        var j := IndexOf(order, k);
        assert users[j] == db[k];
      }
      status, totalCount := OK, |users|;
    }

    /** `GetUserByID`: the stored record, hash included, or `NOT_FOUND`. */
    method GetUserByID(id: string) returns (status: Status, user: Option<Record>)
      requires Valid()
      ensures status == OK || status == NotFound
      ensures status == NotFound <==> id !in db
      ensures status == NotFound ==> user == None
      ensures status == OK ==> user == Some(db[id]) && user.value.id == id
    {
      if id !in db {
        return NotFound, None;
      }
      return OK, Some(db[id]);
    }

    /** `CreateUser`. Validation failure is `INTERNAL`, a stored email is
        `ALREADY_EXISTS`; otherwise the record goes under `str(len + 1)`,
        overwriting (in place) a record already stored under that key. */
    method CreateUser(name: string, email: string, password: string, now: Timestamp)
      returns (status: Status, user: Option<Record>)
      requires Valid()
      modifies this
      ensures Valid()
      ensures status == OK || status == AlreadyExists || status == Internal
      ensures (status == OK) == user.Some?
      ensures status == Internal <==> (checkEmail(email).None? || |password| < MinPasswordLength)
      ensures status == AlreadyExists <==>
        (checkEmail(email).Some? && |password| >= MinPasswordLength && EmailInUse(old(db), checkEmail(email).value))
      ensures status != OK ==> db == old(db) && order == old(order)
      ensures status == OK ==>
        var key := GenerateId(old(db));
        var rec := Record(key, name, checkEmail(email).value, hash(password), now, now);
        && user == Some(rec)
        && db == old(db)[key := rec]
        && order == (if key in old(db) then old(order) else old(order) + [key])
      ensures old(UniqueEmails(db)) ==> UniqueEmails(db)
      ensures status == OK && GenerateId(old(db)) in old(db) ==>
        |db| == |old(db)| && old(db)[GenerateId(old(db))] !in db.Values
    {
      var request := ValidateUserCreate(checkEmail, name, email, password);
      if request.None? {
        return Internal, None;
      }
      var data := request.value;
      var taken := IsEmailTaken(data.email);
      if taken {
        return AlreadyExists, None;
      }
      var key := GenerateId(db);
      var rec := Record(key, data.name, data.email, hash(data.password), now, now);
      ghost var before := db;
      if key !in db {
        order := order + [key];
      }
      db := db[key := rec];
      assert forall k :: k in before ==> before[k].email != rec.email;
      if key in before {
        forall v | v in db.Values ensures v != before[key] {
          var k :| k in db && db[k] == v;
          if k != key {
            assert v.id == k;
          }
        }
      }
      return OK, Some(rec);
    }

    /** `UpdateUser`. An absent id is `NOT_FOUND`; an email the validator
        rejects is `INTERNAL` before anything is written; otherwise name and
        email are overwritten, the hash only for a non-empty password, and
        the update time is set. Email uniqueness is not checked. */
    method UpdateUser(id: string, name: string, email: string, password: string, now: Timestamp)
      returns (status: Status, user: Option<Record>)
      requires Valid()
      modifies this
      ensures Valid()
      ensures status == OK || status == NotFound || status == Internal
      ensures (status == OK) == user.Some?
      ensures status == NotFound <==> id !in old(db)
      ensures status == Internal <==> id in old(db) && checkEmail(email).None?
      ensures status != OK ==> db == old(db) && order == old(order)
      ensures status == OK ==>
        var was := old(db)[id];
        var rec := Record(id, name, checkEmail(email).value,
                          if password != "" then hash(password) else was.password,
                          was.createdAt, now);
        && user == Some(rec)
        && db == old(db)[id := rec]
        && order == old(order)
    {
      if id !in db {
        return NotFound, None;
      }
      var request := ValidateUserUpdate(checkEmail, id, name, email, password);
      if request.None? {
        return Internal, None;
      }
      var data := request.value;
      var rec := db[id];
      rec := rec.(name := data.name, email := data.email);
      if data.password != "" {
        rec := rec.(password := hash(data.password));
      }
      rec := rec.(updatedAt := now);
      db := db[id := rec];
      return OK, Some(Record(data.id, data.name, data.email, rec.password, rec.createdAt, rec.updatedAt));
    }

    /** `DeleteUser`: removes exactly the given key, or reports `NOT_FOUND`. */
    method DeleteUser(id: string) returns (status: Status, deleted: Option<string>)
      requires Valid()
      modifies this
      ensures Valid()
      ensures status == OK || status == NotFound
      ensures status == NotFound <==> id !in old(db)
      ensures status == NotFound ==> deleted == None && db == old(db) && order == old(order)
      ensures status == OK ==>
        && deleted == Some(id)
        && db == old(db) - {id}
        && |db| == |old(db)| - 1
        && exists k :: 0 <= k < |old(order)| && old(order)[k] == id && order == old(order)[..k] + old(order)[k + 1..]
    {
      if id !in db {
        return NotFound, None;
      }
      var k := IndexOf(order, id);
      RemoveAt(order, k);
      ghost var before := db;
      order := order[..k] + order[k + 1..];
      db := db - {id};
      assert db.Keys == before.Keys - {id};
      return OK, Some(id);
    }
  }
}
