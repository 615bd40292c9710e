# User service store — Dafny model

This project models the server side of a small gRPC user-management service.
The service keeps users in a module-level dictionary `users_db`, which maps a
string id to a user record. Five handlers of `UsersServicer` read and change
that dictionary: `CreateUser`, `GetUserByID`, `GetUsers`, `UpdateUser` and
`DeleteUser`. Ids come from `generate_id`, which returns `str(len(users_db) + 1)`.
Passwords are stored as the output of `hash_password`.

The model follows the code as written, quirks included:

- After a delete, the id `str(len + 1)` can equal a stored key. `CreateUser`
  then overwrites that record: the count stays the same, the old record is gone,
  and the key keeps its place in the dictionary's order.
- `UpdateUser` does not check email uniqueness, so two records can end up with
  the same email.
- `GetUsers` ignores `page` and `page_size`.
- A validation failure (email rejected, or a create password shorter than 6
  characters) is reported as `INTERNAL`. There is no invalid-argument code.

Layout:

- `wrappers.dfy` — `Option`.
- `records.dfy` — module `UserModel`. It holds the record and status types, the
  validated request models `UserCreate`/`UserUpdate`, Python's `str` on naturals
  (`NatToString`), `total_users_count`, `generate_id`, and lemmas about the id
  scheme.
- `store.dfy` — module `UserServer`. It holds the class `UserStore` with the
  dictionary `db`, its key order `order`, and one method per handler. Each
  method returns a `Status` (`OK | NotFound | AlreadyExists | Internal`) plus
  the record, list or id.

The hash function and the email validator are library code. They are the
constants `hash` and `checkEmail` of the store, supplied when it is constructed,
and nothing is assumed about them. The clock reading is the `now` parameter of
the handlers that stamp times.

## Model

| member | source | states |
|---|---|---|
| `UserModel.NatToString` | server/app.py:43 | `str(n)`: a non-empty string of decimal digits; it starts with `0` exactly when `n` is 0, and has one digit exactly when `n < 10` |
| `UserModel.NatToStringInjective` | server/app.py:41-43 | distinct counts give distinct id strings |
| `UserModel.NextIdFreshWhenDense` | server/app.py:35-43 | `GenerateId` (`generate_id`, through `TotalUsersCount`, `total_users_count`) is not a stored key when the keys are exactly `"1"`..`str(len)` (only creates so far) |
| `UserModel.CreateKeepsDense` | server/app.py:142-154 | storing a record under the generated id keeps the keys `"1"`..`str(len)` and adds one record, so a run of creates never overwrites |
| `UserModel.NextIdCollidesAfterDelete` | server/app.py:41-43 | `GenerateId` (`generate_id`) is already a stored key after deleting any record other than `str(len)` from such a store |
| `UserModel.UpdateMayDuplicateEmail` | server/app.py:192-193 | writing another record's email into a record breaks email uniqueness; update performs this write unchecked |
| `UserServer.UserStore.constructor` | server/app.py:17 | the store starts empty and consistent |
| `UserServer.UserStore.IsEmailTaken` | server/app.py:134 | true exactly when some stored record has the email |
| `UserServer.UserStore.GetUsers` | server/app.py:69-94 | status OK; `total_count == len(users) == len(db)`; element i is the record under the i-th key in insertion order; every record appears, with no id twice; page arguments have no effect; nothing changes |
| `UserServer.UserStore.GetUserByID` | server/app.py:96-121 | `NOT_FOUND` exactly when the id is absent; otherwise the stored record unchanged, hash included; nothing changes |
| `UserServer.UserStore.CreateUser` | server/app.py:123-173 | validation through `ValidateUserCreate` (the `UserCreate` model); `INTERNAL` exactly on a rejected email or a password under 6 characters; `ALREADY_EXISTS` exactly when the validated email is stored; the store is unchanged on both; on success the record is built from key `str(len + 1)`, name, validated email, `hash(password)` and created equal to updated; it is stored and returned; a new key is appended to the order and an existing key is overwritten in place (count unchanged, old record gone); email uniqueness and "id equals key" are preserved |
| `UserServer.UserStore.UpdateUser` | server/app.py:175-215 | validation through `ValidateUserUpdate` (the `UserUpdate` model); `NOT_FOUND` exactly when the id is absent; `INTERNAL` exactly when the email is rejected, with nothing written; on success it writes name and validated email, writes `hash(password)` only for a non-empty password (no length check), sets updated to `now`, keeps id and created time, leaves all other records and the order untouched and returns the record |
| `UserServer.UserStore.DeleteUser` | server/app.py:217-233 | `NOT_FOUND` exactly when the id is absent, with nothing changed; otherwise it removes exactly that key (count minus one, other records unchanged), removes it from the order and keeps the rest of the order, and returns the id |

## Left out

- gRPC plumbing is not modelled: `serve`, servicer registration, the port, `wait_for_termination`, protobuf message construction, and `handle_grpc_error`'s `set_code`/`set_details`. A returned `Status` stands in for the status code.
- The fixed success message strings ("User created successfully" and the like) are not modelled.
- Concurrency is not modelled. The 10-worker thread pool runs handlers against the unlocked dictionary. Each handler here is one atomic step.
- SHA-256 is the uninterpreted constant `hash`. No injectivity, length or `hash(p) != p` fact is assumed. So the model states that the stored password is `hash(plaintext)`, but cannot state that it differs from the plaintext.
- `EmailStr` validation and any normalisation it applies are library behaviour. They are the uninterpreted constant `checkEmail`, which either rejects an address or yields the value stored.
- `datetime.now()` is replaced by a `now` parameter. `convert_datetime_to_timestamp` is not modelled: a timestamp is an `int`.
- The generic `except` branches for failures other than validation are not modelled. Such failures are out-of-memory or a malformed record, which cannot arise in the model. So `GetUsers` always reports OK.
- Logging is not modelled.
- The client program is not part of this model: it only calls the stubs and prints.
