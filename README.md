# User authentication store and log redaction, in Dafny

This project models two parts of a small Python back-end.

- **The user store of the authentication service** (`db.py`, `auth.py`).
  `DB` keeps a table of user records: id, email, hashed password, and optional
  session id and reset token.
  - `add_user` appends a record with a fresh id.
  - `find_user_by(**attributes)` narrows the query one `column == value`
    filter at a time. It raises `InvalidRequestError` on an unknown column,
    returns the first matching row, or raises `NoResultFound`.
  - `Auth.register_user` looks the email up first. It raises `ValueError`
    when the email is already present; otherwise it stores a record with
    the bcrypt hash of the password and returns it.
  - `update_user` is taken from the script `3-update_user.py`, which calls it.
    A recognised key changes the record. An unknown key raises `ValueError`
    and changes nothing.
- **Log redaction** (`filtered_logger.py`). `filter_datum(fields,
  redaction, message, separator)` takes each field in turn and rewrites
  every match of the regular expression `field=\S+?separator` to
  `field=redaction separator`.

Each operation has two forms. A pure function states it on values: `Find`,
`NewUser`, `Update`, `Register` and `RedactAll`. The classes `UserDb.DB`
and `Authentication.Auth` hold the mutable state. Their methods, and the
loop `FilteredLogger.FilterDatum`, are proved to compute exactly what these
functions say. The properties of the functions are then proved as
postconditions and lemmas.

Files:

- `wrappers.dfy`: `Option`.
- `user_db.dfy`: module `UserDb`, the store (`db.py`) and `update_user`.
- `authentication.dfy`: module `Authentication` (`auth.py`).
- `update_user_script.dfy`: module `UpdateUserScript`, the scenario of
  `3-update_user.py` written as a method against the store.
- `filtered_logger.dfy`: module `FilteredLogger` (`filtered_logger.py`).

Modelling choices:

- **Keyword arguments** are a sequence of `Pair(key, value)` in argument order.
  A value is an integer, a string or `Null`. `Null` is Python's `None`,
  which the ORM turns into an `IS NULL` test.
- **Store order.** The store is a sequence in insertion order. "First" means
  first in that order.
- **Fresh ids** follow SQLite's usual rule for an integer primary key: one
  more than the largest id in the table, or 1 when the table is empty. The
  exception, when the largest id is already 2^63-1, is under "Left out".
- **bcrypt.** `bcrypt.hashpw` is a function value that `Auth` is built with.
  The salt that `bcrypt.gensalt()` draws is a parameter of `RegisterUser`.
- **`\S`** is any character that Python's `str.isspace` rejects.
- **The docstring example.** Its output spells the email `matthew@…`
  while the input has `mathew@…`. `filter_datum` never touches the email
  field, so `DocstringExample` proves the output with the input's spelling.

## Model

| member | source | states |
|---|---|---|
| UserDb.DB.constructor | 0x03-user_authentication_service/db.py:20-26 | A new store is empty, because the tables are dropped and recreated. |
| UserDb.NextId | 0x03-user_authentication_service/db.py:40-43 | The id given to a new row is larger than every id already in the table. |
| UserDb.NewUser | 0x03-user_authentication_service/db.py:37-44 | The new record has the given email and hashed password, no session id and no reset token. Its id differs from every existing id, so adding it keeps ids unique. |
| UserDb.DB.AddUser | 0x03-user_authentication_service/db.py:37-44 | The store grows by exactly that one record at the end, and existing records are unchanged. The method returns the new record and keeps ids unique. |
| UserDb.Attr | 0x03-user_authentication_service/db.py:49-55 | The value of a recognised column (`Columns`, the keys of `user_attrs`) always has that column's type: an integer id, a string email and hashed password, a string or NULL session id and reset token. |
| UserDb.Select | 0x03-user_authentication_service/db.py:57-61 | The query narrowed by each `column == value` filter, in store order, is never longer than the store. Which records it holds is `SelectMembers`; its head is `SelectHead`. |
| UserDb.SelectMembers | 0x03-user_authentication_service/db.py:57-61 | A record is in the filtered query exactly when it is stored and passes every filter. |
| UserDb.SelectNoFilter | 0x03-user_authentication_service/db.py:57 | A query with no filters yields every record, in store order. |
| UserDb.SelectSelect | 0x03-user_authentication_service/db.py:59-61 | Adding one filter to a filtered query equals filtering by both lists, so the filters are conjunctive. |
| UserDb.SelectHead | 0x03-user_authentication_service/db.py:65 | The query is empty exactly when no record passes every filter. Otherwise its first row is the earliest record that passes. |
| UserDb.Find | 0x03-user_authentication_service/db.py:49-67 | An unknown key gives `InvalidRequestError`, whatever the other keys and even on an empty store. `NoResultFound` comes exactly when all keys are known and no record passes every filter. Otherwise the result is a stored record that passes every filter, with no earlier record passing. |
| UserDb.FindNoCriteria | 0x03-user_authentication_service/db.py:57-67 | With no criteria the lookup returns the first record, or `NoResultFound` on an empty store. |
| UserDb.DB.FindUserBy | 0x03-user_authentication_service/db.py:46-69 | The per-attribute loop returns exactly `Find` of the current store and changes nothing. |
| UserDb.FindById | 0x03-user_authentication_service/db.py:46-69 | With unique ids, looking a record up by its own id returns exactly that record. |
| UserDb.SetAttr | 0x03-user_authentication_service/3-update_user.py:21 | Setting one recognised column succeeds exactly when the value fits the column. The column then holds the value and every other column is unchanged. |
| UserDb.ApplyChanges | 0x03-user_authentication_service/3-update_user.py:21 | Applying a list of changes succeeds exactly when every value fits its column. |
| UserDb.ApplyChangesAttr | 0x03-user_authentication_service/3-update_user.py:21 | After the changes, each column holds the last value given for it, or its old value when no change names it. |
| UserDb.IdIndex | 0x03-user_authentication_service/3-update_user.py:21 | This is the position of the first record with the given id, or -1 exactly when no record has it. |
| UserDb.Update | 0x03-user_authentication_service/3-update_user.py:20-24 | An unrecognised key (outside the columns of db.py:49-55) raises `ValueError` and changes nothing. With known keys, a missing id gives `NoResultFound`. `Rejected` comes exactly when the keys are known, the id exists, and the changes either do not fit their columns or give the record an id another record holds. So every other call with known keys and an existing id succeeds. Every failure leaves the store unchanged. On success the record with that id is replaced by the changed record. Ids stay unique. |
| UserDb.UpdateOneColumn | 0x03-user_authentication_service/3-update_user.py:20-26 | A recognised column other than `id`, given a fitting value, always updates an existing record. The result is that record with the one column set, stored at the same position. That column takes the value; other columns and other records are as before. |
| UserDb.DB.UpdateUser | 0x03-user_authentication_service/3-update_user.py:20-24 | The result and the new store are those of `Update`, and ids stay unique. |
| Authentication.HashPassword | 0x03-user_authentication_service/auth.py:13-17 | The stored hash is `hashpw` applied to the password and the salt drawn for this call. bcrypt is a parameter, so nothing more is stated about it. |
| Authentication.Register | 0x03-user_authentication_service/auth.py:29-42 | `ValueError` comes exactly when the email is already stored, and leaves the store unchanged. Otherwise exactly one record is appended and returned: that email, the hash of the password, no tokens, a fresh id. |
| Authentication.RegisterPreservesUniqueness | 0x03-user_authentication_service/auth.py:36-40 | Registration keeps both ids and emails unique. |
| Authentication.RegisterTwice | 0x03-user_authentication_service/auth.py:29-40 | On a store without the email, the first registration succeeds and a second one with the same email raises `ValueError`. |
| Authentication.FirstRegistration | 0x03-user_authentication_service/auth.py:24-27 | On the empty store of a fresh service, any first registration succeeds and leaves exactly one record. |
| Authentication.Auth.constructor | 0x03-user_authentication_service/auth.py:24-27 | The service owns a new, empty store. |
| Authentication.Auth.RegisterUser | 0x03-user_authentication_service/auth.py:29-42 | Lookup-then-add returns exactly what `Register` says, and keeps ids and emails unique. |
| UpdateUserScript.UpdateUserScenario | 0x03-user_authentication_service/3-update_user.py:12-39 | The two added records have their own emails and hashed passwords and distinct ids. The `hashed_password` update succeeds, and the record read back differs only in holding `NewPwd`. The `hashed_pword` update raises `ValueError`, and the second record reads back unchanged. |
| FilteredLogger.ValueEnd | 0x00-personal_data/filtered_logger.py:41 | The end the lazy `\S+?` scan finds lies past its start and leaves room for the separator. |
| FilteredLogger.MatchAt | 0x00-personal_data/filtered_logger.py:41 | A match of `field=\S+?separator` at a position ends after `field=` and at least one value character, and leaves room for the separator. |
| FilteredLogger.Redact | 0x00-personal_data/filtered_logger.py:42 | `re.sub` over the message from a position: matches are rewritten left to right without overlap, and other characters are copied. `RedactAtMatch`, `RedactSkip` and `MatchAtIsMatch` characterise it. |
| FilteredLogger.Substitute | 0x00-personal_data/filtered_logger.py:41-42 | One loop iteration: `re.sub` of the pattern for one field over the whole message. |
| FilteredLogger.RedactAll | 0x00-personal_data/filtered_logger.py:40-42 | Each field's substitution applied in list order to the output of the previous one. `RedactAllAppend` and `FilterDatum` state its properties. |
| FilteredLogger.ValueEndSome | 0x00-personal_data/filtered_logger.py:41 | A value the scan finds is non-empty and whitespace-free, and is followed by the separator. No earlier end would do, so the match is lazy. |
| FilteredLogger.ValueEndNone | 0x00-personal_data/filtered_logger.py:41 | When the scan finds nothing, no whitespace-free value followed by the separator starts there. |
| FilteredLogger.MatchAtIsMatch | 0x00-personal_data/filtered_logger.py:41 | The scanner finds a match ending at `e` exactly when `field=`, a non-empty whitespace-free value and the separator occur there, with `e` the first separator after at least one value character. |
| FilteredLogger.NoMatchAt | 0x00-personal_data/filtered_logger.py:41 | There is no match at a position exactly when `field=` is absent there or no separator follows before whitespace or the end. |
| FilteredLogger.RedactAtMatch | 0x00-personal_data/filtered_logger.py:41-42 | A match becomes `field=`, the redaction and the separator, and the scan resumes after the separator. |
| FilteredLogger.RedactSkip | 0x00-personal_data/filtered_logger.py:42 | Text where no match starts is copied through unchanged and in order. |
| FilteredLogger.RedactNoSeparator | 0x00-personal_data/filtered_logger.py:41-42 | With no separator left in the message nothing matches, and the remainder is kept. |
| FilteredLogger.RedactShift | 0x00-personal_data/filtered_logger.py:42 | The rewrite of a suffix does not depend on the text before it. |
| FilteredLogger.SubstituteCopy | 0x00-personal_data/filtered_logger.py:42 | A prefix in which no match starts is kept, and the rest is rewritten on its own. |
| FilteredLogger.SubstituteCopyPlain | 0x00-personal_data/filtered_logger.py:42 | The same holds for a prefix that lacks the field's first character. |
| FilteredLogger.SubstituteMatch | 0x00-personal_data/filtered_logger.py:41-42 | A leading `field=value separator` is rewritten, and the rest is rewritten on its own. The value must be non-empty, whitespace-free and free of earlier separators. |
| FilteredLogger.OneFieldRedacted | 0x00-personal_data/filtered_logger.py:41-42 | A message that is one field `field=value` and a one-character separator, with a non-empty whitespace-free value holding the separator at most as its first character, becomes `field=redaction` and the separator. |
| FilteredLogger.RedactAllAppend | 0x00-personal_data/filtered_logger.py:40-42 | Fields are applied in list order, each to the output of the previous ones. |
| FilteredLogger.FilterDatum | 0x00-personal_data/filtered_logger.py:40-43 | The loop returns the left fold `RedactAll` of the per-field substitutions. With no fields it returns the message unchanged. |
| FilteredLogger.SeparatorInsideValue | 0x00-personal_data/filtered_logger.py:41 | `password=;x;` becomes `password=xxx;`, because the lazy value eats the first `;`. |
| FilteredLogger.UnanchoredMatch | 0x00-personal_data/filtered_logger.py:41 | `old_` + `password=abc;` becomes `old_` + `password=xxx;`, because the pattern is not anchored: the match inside `old_password=` is rewritten and the prefix is kept. |
| FilteredLogger.TrailingFieldKept | 0x00-personal_data/filtered_logger.py:41 | In `name=bob;password=abc` the last field has no trailing separator, so the message is unchanged. |
| FilteredLogger.DocstringPassword | 0x00-personal_data/filtered_logger.py:35-38 | In the docstring message, the `password` pass rewrites only the password value. |
| FilteredLogger.DocstringDateOfBirth | 0x00-personal_data/filtered_logger.py:35-38 | The `date_of_birth` pass then rewrites only the date of birth. |
| FilteredLogger.DocstringExample | 0x00-personal_data/filtered_logger.py:35-38 | For the docstring message, `password` and `date_of_birth` become `xxx`, and `name` and `email` are kept. |

## Left out

- `app.py`: HTTP routing, form and cookie handling, and status codes. `app.py` is not part of this model.
- `valid_login`, `create_session`, `get_user_from_session_id`, `destroy_session` and `get_reset_password_token`: `app.py` calls them, but `auth.py` does not define them, so there is no code to model.
- `user.py` is not part of this model. The column types (an integer id, string email and hashed password, nullable session id and reset token) are inferred from the way `db.py` uses them.
- bcrypt itself: salt generation and the hash algorithm are an opaque function value. Because the function is opaque, "the stored hash is not the plaintext" cannot be stated. The bytes that `hashpw` returns are modelled as a string.
- SQLAlchemy and SQLite mechanics are left out: the engine, the database file, the memoised session and commit durability. Every operation takes effect at once.
- `UserDb.DB.FindUserBy`: the model returns a record by value. The ORM returns the live object from its identity map, which a later update changes in place. The scenario reads records back by id where the script prints the object again.
- `UserDb.Find`: "first" is first in insertion order. An unordered SQLite query usually scans in rowid order, which can differ after an update that changes an id.
- `UserDb.Find`: filters compare typed values strictly, so a string never equals an integer. SQLite applies column affinity instead: `find_user_by(id="1")` finds user 1, and `email == 5` matches the email `"5"`; there the model gives `NoResultFound`. Python integers outside SQLite's 64-bit range, which `sqlite3` rejects with `OverflowError`, are also not modelled: the model simply finds no record.
- `UserDb.Update`: `update_user` is not defined in `db.py`. Its contract is taken from `3-update_user.py`, and its details are choices of the model:
  - keys are checked before the id lookup;
  - changes are applied in argument order;
  - a value of the wrong type for its column, or a new id that another record already holds, gives `Rejected` and changes nothing. This stands in for SQLite's dynamic typing and constraint errors, which are not modelled.
  - ids are unbounded integers. An `id` change to a value outside SQLite's 64-bit range gives `Ok` in the model, where `sqlite3` would raise `OverflowError`. Likewise a `user_id` outside that range gives `NoResultFound` in the model, where the id lookup behind `update_user` would raise `OverflowError`.
- `UserDb.NextId`: when the largest id is already 2^63-1, SQLite picks an unused id at random. The model instead returns 2^63, one more than the largest, which SQLite cannot store. This is reachable only after an `id` update to 2^63-1.
- `Authentication.Register`: `register_user` catches only `NoResultFound`. The `InvalidRequestError` it would let through cannot arise for the single key `email`, so it is not a result of `Register`.
- `sqlalchemy.exc.NoResultFound` (imported by `db.py`) and `sqlalchemy.orm.exc.NoResultFound` (caught by `auth.py`) are treated as one error.
- General regular-expression semantics: `field` and `separator` are taken literally, assuming they contain no metacharacters, and `redaction` is assumed to contain no backslash escapes or group references.
- `print` output of `3-update_user.py`.
