/**
 The values the user service works with: the stored user record, the
 validated request models, the decimal rendering of identifiers and the
 identifier scheme `str(len(users_db) + 1)`.
 */
module UserModel {

  import opened Wrappers

  /** A clock reading, as supplied by the caller in place of `datetime.now()`. */
  type Timestamp = int

  /** The one-way password digest; the service uses SHA-256, never inspected here. */
  type Hasher = string -> string

  /** The email validation of the schema library: `None` if it rejects the
      address, otherwise the (possibly normalised) address it yields. */
  type EmailValidator = string -> Option<string>

  /** The status code a handler reports to its caller. */
  datatype Status = OK | NotFound | AlreadyExists | Internal

  /** A stored user; also the shape of the `User` message returned to clients. */
  datatype Record = Record(
    id: string,
    name: string,
    email: string,
    password: string,
    createdAt: Timestamp,
    updatedAt: Timestamp)

  /** The store: identifier to record. */
  type Db = map<string, Record>

  /** Request models after validation. */
  datatype UserCreate = UserCreate(name: string, email: string, password: string)
  datatype UserUpdate = UserUpdate(id: string, name: string, email: string, password: string)

  /** `constr(min_length=6)` on the create password. */
  const MinPasswordLength: nat := 6

  /** Validation of a create request by the service's `UserCreate` model;
      `None` where that model raises a validation error. */
  function ValidateUserCreate(checkEmail: EmailValidator, name: string, email: string, password: string): Option<UserCreate>
  {
    match checkEmail(email)
    case None => None
    case Some(e) => if |password| < MinPasswordLength then None else Some(UserCreate(name, e, password))
  }

  /** Validation of an update request: only the email is checked; the password
      has no length constraint. */
  function ValidateUserUpdate(checkEmail: EmailValidator, id: string, name: string, email: string, password: string): Option<UserUpdate>
  {
    match checkEmail(email)
    case None => None
    case Some(e) => Some(UserUpdate(id, name, e, password))
  }

  /** Some stored record carries this email. */
  ghost predicate EmailInUse(db: Db, email: string)
  {
    exists k :: k in db && db[k].email == email
  }

  /** No two stored records share an email. */
  ghost predicate UniqueEmails(db: Db)
  {
    forall j, k :: j in db && k in db && j != k ==> db[j].email != db[k].email
  }

  /** Every record's `id` field equals the key it is stored under. */
  ghost predicate IdsMatchKeys(db: Db)
  {
    forall k :: k in db ==> db[k].id == k
  }

  ghost predicate IsDigit(c: char)
  {
    '0' <= c <= '9'
  }

  function DigitChar(d: nat): char
    requires d < 10
  {
    (48 + d) as char
  }

  /** Python's `str(n)` for a non-negative integer: decimal digits, no
      leading zero except for `"0"` itself. */
  function NatToString(n: nat): (s: string)
    ensures |s| >= 1
    ensures forall i :: 0 <= i < |s| ==> IsDigit(s[i])
    ensures (s[0] == '0') == (n == 0)
    ensures (|s| == 1) == (n < 10)
    decreases n
  {
    if n < 10 then [DigitChar(n)] else NatToString(n / 10) + [DigitChar(n % 10)]
  }

  /** Distinct numbers have distinct decimal renderings. */
  lemma {:induction false} NatToStringInjective(a: nat, b: nat)
    requires NatToString(a) == NatToString(b)
    ensures a == b
    decreases a
  {
    var sa, sb := NatToString(a), NatToString(b);
    if a >= 10 && b >= 10 {
      assert sa[..|sa| - 1] == NatToString(a / 10);
      assert sb[..|sb| - 1] == NatToString(b / 10);
      NatToStringInjective(a / 10, b / 10);
      assert DigitChar(a % 10) == sa[|sa| - 1] == sb[|sb| - 1] == DigitChar(b % 10);
    }
  }

  /** `total_users_count()`: the number of stored records. */
  function TotalUsersCount(db: Db): nat
  {
    |db|
  }

  /** `generate_id()`: the decimal rendering of the count plus one. */
  function GenerateId(db: Db): string
  {
    NatToString(TotalUsersCount(db) + 1)
  }

  /** The keys of `db` are exactly `"1"`, ..., `str(len(db))`: the shape of
      a store that has only ever seen successful creates. */
  ghost predicate DenseIds(db: Db)
  {
    && (forall i: nat :: 1 <= i <= |db| ==> NatToString(i) in db)
    && (forall k :: k in db ==> exists i: nat :: 1 <= i <= |db| && k == NatToString(i))
  }

  /** Without deletes, the generated identifier is always fresh. */
  lemma NextIdFreshWhenDense(db: Db)
    requires DenseIds(db)
    ensures GenerateId(db) !in db
  {
    if GenerateId(db) in db {
      var i: nat :| 1 <= i <= |db| && GenerateId(db) == NatToString(i);
      NatToStringInjective(i, |db| + 1);
    }
  }

  /** A create that stores under the generated identifier keeps the store
      dense, so a run of creates never overwrites and yields distinct ids. */
  lemma CreateKeepsDense(db: Db, rec: Record)
    requires DenseIds(db)
    ensures DenseIds(db[GenerateId(db) := rec])
    ensures |db[GenerateId(db) := rec]| == |db| + 1
  {
    NextIdFreshWhenDense(db);
    var key := GenerateId(db);
    var db' := db[key := rec];
    assert |db'| == |db| + 1;
    forall k | k in db'
      ensures exists i: nat :: 1 <= i <= |db'| && k == NatToString(i)
    {
      if k == key {
        assert 1 <= |db| + 1 <= |db'| && k == NatToString(|db| + 1);
      } else {
        var i: nat :| 1 <= i <= |db| && k == NatToString(i);
        assert 1 <= i <= |db'|;
      }
    }
  }

  /** The identifier collision of `str(len + 1)`: after deleting any record
      other than the last-numbered one from a dense store, the next
      generated identifier is already taken. */
  lemma NextIdCollidesAfterDelete(db: Db, victim: string)
    requires DenseIds(db)
    requires victim in db && victim != NatToString(|db|)
    ensures GenerateId(db - {victim}) in db - {victim}
  {
  }

  /** No uniqueness check on update: giving one record another record's
      email leaves two records with the same email. */
  lemma UpdateMayDuplicateEmail(db: Db, target: string, other: string, rec: Record)
    requires target in db && other in db && target != other
    requires rec.email == db[other].email
    ensures !UniqueEmails(db[target := rec])
  {
    var db' := db[target := rec];
    assert target in db' && other in db' && db'[target].email == db'[other].email;
  }
}
