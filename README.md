# Image store and upload helpers of the 5e Discord bot

This project models two parts of the bot.

The first is the SQLite-backed image store in `db.py`. It has two tables.
`images(creature, imageID, userID, time, ranking, voted)` holds one row per
uploaded creature picture. `apikeys(key, userID, name, time)` holds one row per
issued API key. The store offers these operations:

- insert an image (`add_image`);
- insert a key (`add_apikey`);
- delete every key of a user (`revoke_apikeys`);
- test that a key exists (`verify_apikey`);
- look up the creature of an image id (`get_creature`);
- list every image id (`get_all_image_ids`);
- serve the one API request, `get_image_data`, behind a key check (`api_key_access`).

The second is the set of small decision and string helpers in `bot.py`:

- the permission rule `user_allowed_db`;
- the URL allow-list test of the `upload_image` command;
- the sanitiser that turns a creature name into a directory name.

Files:

- `sql.dfy` (module `Sql`) holds what the statements need from SQL: a value bound
  to a `?` placeholder (`Null`, `Text`, `Integer`), the `x IN (a, b)` test, and
  `Where`, the rows a WHERE clause keeps, in table order. Lemmas about `Where`
  cover concatenation, the all-pass and none-pass cases, multiplicities and
  idempotence.
- `db.dfy` (module `Db`) holds the row types and one function per statement over
  the table sequences. The class `Database` holds the two tables as `seq` fields.
  `AddImage`, `AddApiKey` and `RevokeApiKeys` update them in place and state the
  whole new state, including that the other table is unchanged. Its read-only
  queries (`VerifyApiKey`, `GetCreature`, `GetAllImageIds`, `ApiKeyAccess`) apply
  the module's functions to the current tables. Lemmas relate the queries to the
  updates.
- `bot.dfy` (module `Bot`) holds the three helpers as methods with loops, in the
  source's shape, each proved against its specification.

Modelling choices:

- A request parameter of `get_image_data` that the HTTP client leaves out reaches
  the store as Python `None`, and so as SQL NULL. `NULL IN (...)` is never true,
  so such a parameter matches no row. The empty string `''` matches every row.
  Parameters are therefore `Sql.Value`s, not strings.
- The filter joins its three tests with OR. So a `''` in any one parameter returns
  the whole table (`Db.EmptyParameterSelectsAll`). This includes the Python
  defaults of `api_key_access`, which are all `''`.
- sqlite3 raises `OverflowError` when it binds an integer outside the signed 64-bit range. `Sql.Bindable` states the range. `Db.Access` returns `BindError` in that case, after the key and request checks, as the source reaches the SELECT only after both. The three writing methods return `bound`, which is false in that case, and then leave both tables as they were.
- Timestamps (`int(time())`) are a `now` parameter of the inserting methods.
- The configuration lists (`level0Accounts`, `level0Roles`, `allowed_image_urls`)
  are method parameters.
- `str.strip()` removes the characters for which Python's `str.isspace()` holds.
  `Bot.IsWhitespace` lists them by code point.

## Model

| member | source | states |
|---|---|---|
| `Sql.InPair` | db.py:108 | a NULL on the left of `IN` never matches, whatever the list holds |
| `Sql.Where` | db.py:108 | the selected rows are exactly the table rows that meet the condition, and there are no more of them than rows in the table |
| `Sql.WhereAppend` | db.py:108 | selecting from two table parts in sequence gives the selection from the first part followed by the selection from the second, so table order is kept |
| `Sql.WhereKeepsAll` | db.py:108 | when every row meets the condition, the whole table comes back in order |
| `Sql.WhereDropsAll` | db.py:108 | when no row meets the condition, nothing comes back |
| `Sql.WhereCount` | db.py:108 | each row that meets the condition comes back as often as it occurs in the table; any other row does not come back |
| `Sql.WhereIdempotent` | db.py:84 | filtering a table twice by the same condition equals filtering it once |
| `Db.KeyExists` | db.py:89-98 | a key is valid iff some `apikeys` row holds it |
| `Db.CreatureOf` | db.py:57-66 | the result is None iff no `images` row has the id; otherwise it is the creature of the first such row in table order |
| `Db.ImageIdColumn` | db.py:69-78 | one image id per `images` row, with the same length as the table and in table order |
| `Db.WithoutUser` | db.py:81-86 | after the DELETE, a key row remains iff it was in the table and belongs to another user |
| `Db.ImageDataMatches` | db.py:108 | three NULL parameters match no row, and a `''` in any one parameter matches every row, since the three tests are joined by OR |
| `Db.ImageData` | db.py:107-113 | a row is fetched iff it is in the table and meets the `get_image_data` WHERE clause |
| `Db.Access` | db.py:101-116 | the result is "Invalid API key" iff no row holds the key; "Invalid Request" iff the key is valid and the request is not `get_image_data`; the bind overflow error iff the key is valid, the request is `get_image_data` and a parameter is an integer outside the signed 64-bit range; otherwise exactly the `get_image_data` rows, in table order |
| `Db.Database.constructor` | db.py:13-36 | the store starts with both tables empty and satisfies its invariant |
| `Db.Database.AddImage` | db.py:40-46 | when the user id and the time fit the signed 64-bit range, appends exactly one row with the given creature, id, user and time, and `ranking = voted = 0`; otherwise the insert fails (`bound` is false) and `images` is unchanged; `apikeys` is unchanged either way |
| `Db.Database.AddApiKey` | db.py:48-54 | when the user id and the time fit the signed 64-bit range, appends exactly one `(key, userID, name, time)` row; otherwise the insert fails (`bound` is false) and `apikeys` is unchanged; `images` is unchanged either way |
| `Db.Database.RevokeApiKeys` | db.py:81-86 | when the user id fits the signed 64-bit range, the new `apikeys` table is the old one without the user's rows, so no row of that user remains; otherwise the delete fails (`bound` is false) and `apikeys` is unchanged; `images` is unchanged either way |
| `Db.Database.VerifyApiKey` | db.py:89-98 | on the current tables, a key is valid iff some `apikeys` row holds it |
| `Db.Database.GetCreature` | db.py:57-66 | on the current tables, None iff no `images` row has the id, otherwise the creature of the first such row |
| `Db.Database.GetAllImageIds` | db.py:69-78 | on the current tables, one id per `images` row, in table order |
| `Db.Database.ApiKeyAccess` | db.py:101-116 | on the current tables, "Invalid API key" iff no row holds the key; "Invalid Request" iff the key verifies and the request is not `get_image_data`; the bind overflow error iff the key verifies, the request is `get_image_data` and a parameter is an integer outside the signed 64-bit range; otherwise exactly `Db.ImageData` of the current `images` table, so the rows meeting the WHERE clause in table order |
| `Db.RevokedKeyFails` | db.py:81-98 | after revocation, a key whose every row belonged to the revoked user no longer verifies |
| `Db.RevokeKeepsOtherUsersKeys` | db.py:81-98 | a key also held by another user still verifies after revocation |
| `Db.RevokeCount` | db.py:84 | every row of another user survives as often as it occurred, and no row of the revoked user survives |
| `Db.RevokeAbsentUser` | db.py:84 | revoking a user who holds no key leaves the table exactly as it was |
| `Db.RevokeInOrder` | db.py:84 | revocation keeps the surviving rows in their original order (it distributes over concatenation) |
| `Db.RevokeIdempotent` | db.py:81-86 | revoking the same user twice has the effect of revoking once |
| `Db.IssuedKeyVerifies` | db.py:48-54 | a key just inserted by `add_apikey` verifies |
| `Db.CreatureAfterAdd` | db.py:40-66 | after `add_image`, `get_creature` is unchanged for an id already present; for an absent id it finds the new row's creature when the new row has that id, and None otherwise |
| `Db.ImageIdsAfterAdd` | db.py:40-78 | after `add_image`, the id list is the old list followed by the new row's id |
| `Db.ImageDataAfterAdd` | db.py:40-113 | after `add_image`, `get_image_data` returns the old result followed by the new row when the new row meets the filter |
| `Db.EmptyParameterSelectsAll` | db.py:107-113 | a `''` in any of the three parameters returns every `images` row, in order |
| `Db.AbsentParametersSelectNothing` | db.py:107-113 | with all three parameters NULL the query returns no row |
| `Db.ImageDataCount` | db.py:107-113 | each matching row is returned as often as the table holds it; a non-matching row is not returned |
| `Db.AccessDeniedAfterRevoke` | db.py:101-103 | after revocation, a key that only the revoked user held gets "Invalid API key" whatever the request |
| `Db.AccessWildcardReadsAll` | db.py:101-113 | with a valid key, `get_image_data` with a `''` parameter returns the whole `images` table, unless a parameter is an integer too wide to bind |
| `Bot.UserAllowedDb` | bot.py:107-127 | a listed account is always allowed; with `accounts_only` set, a user is allowed iff the account is listed; otherwise iff the account is listed or the user holds a listed role |
| `Bot.UrlAllowed` | bot.py:144-151 | the URL is accepted iff some allow-list entry is a substring of it; an empty allow-list rejects every URL |
| `Bot.IsSubstring` | bot.py:146 | Python's `needle in haystack`: true only when the needle is no longer than the haystack, and true whenever the haystack starts with the needle |
| `Bot.EmbeddedEntryAccepted` | bot.py:144-148 | an allowed entry is accepted with any text before and after it, so the test does not pin the host |
| `Bot.EmptyEntryAcceptsAll` | bot.py:144-148 | an empty string on the allow-list accepts every URL |
| `Bot.IsWhitespace` | bot.py:157 | `str.isspace()`: space, tab, newline and carriage return are whitespace; `_`, `/`, `\\` and `.` are not |
| `Bot.TrimStart` | bot.py:157 | removes exactly the leading whitespace: the result is a suffix, every removed character is whitespace, and the result does not start with whitespace |
| `Bot.TrimEnd` | bot.py:157 | removes exactly the trailing whitespace: the result is a prefix, every removed character is whitespace, and the result does not end with whitespace |
| `Bot.Strip` | bot.py:157 | the stripped name neither starts nor ends with whitespace, and it is empty iff the name is all whitespace |
| `Bot.StripIsInfix` | bot.py:157 | the stripped name is a contiguous slice of the name with only whitespace before and after it, so it is the name with its outer whitespace cut off |
| `Bot.StripKeepsTrimmed` | bot.py:157 | a name without leading or trailing whitespace is unchanged by stripping |
| `Bot.ReplaceChar` | bot.py:159 | `str.replace` of one character keeps the length, replaces every occurrence and keeps every other character in place |
| `Bot.SanitiseCreature` | bot.py:157-159 | stripping and then replacing the four characters one after another gives the stripped name with each of `' '`, `'/'`, `'\\'`, `'.'` turned into `'_'` |
| `Bot.SanitisedShape` | bot.py:157-159 | the sanitised name has the stripped name's length, contains none of the four characters, and keeps every other character in its place |
| `Bot.SanitisedTrimmed` | bot.py:157-159 | a sanitised name neither starts nor ends with whitespace |
| `Bot.SanitiseFixes` | bot.py:157-159 | a name that stripping leaves alone and that holds none of the four characters is unchanged by sanitising |
| `Bot.SanitiseIdempotent` | bot.py:157-159 | sanitising an already sanitised name returns it unchanged |

## Left out

- SQLite connections, cursors and commits (`connect`, `close`) are not modelled. Each operation is one statement applied to the tables.
- `init()` runs `CREATE TABLE IF NOT EXISTS` on a database file that persists, so rows survive a restart. The constructor models a fresh file only: both tables start empty. The `__main__` debug query is not modelled.
- SQLite's storage affinity is not modelled. The declared column type `STR` gives the `creature`, `imageID` and `key` columns NUMERIC affinity. So a creature name such as `"5"` or `"1e3"` passes the sanitiser unchanged and is stored as the integer `5` or `1000`. SQLite's `get_creature` would then return that number, and `'5' IN (creature, '')` would be false. Here the row keeps the text, `CreatureOf` returns `Some("5")`, and `ImageData` matches it. Comparisons in the `IN` list itself apply no affinity, which is what the model does.
- `Sql.Value` has no REAL case. A JSON number such as `5.0` passed to `api_key_access` binds as a REAL, and SQLite finds it equal to the integer user id `5`. The model cannot express such a parameter.
- `api_key_access` checks the key on one connection (`verify_apikey`) and runs the SELECT on a second one. Another thread of the web API, or the bot process, can commit `revoke_apikeys` in between, and a key revoked after the check still receives rows. `Db.Access` and `Db.AccessDeniedAfterRevoke` evaluate both steps on one state, so this interleaving is not captured.
- Only integer, text and NULL parameters are modelled. A JSON array or object passed to `api_key_access` makes the binding fail with an error the model cannot express. Integers are unbounded. For `api_key_access`, an integer parameter outside the signed 64-bit range gives the result `BindError` of `Db.AccessResult`, which stands for the `OverflowError` that sqlite3 raises while binding. For `add_image`, `add_apikey` and `revoke_apikeys`, the same overflow is the `bound` result false, with the tables left unchanged. The exception itself, and the connection it leaves open, are not modelled.
- Rows are fetched as Python tuples in the source. Here they are `Db.Image` records with the same six columns.
- The error strings `"Invalid API key"` and `"Invalid Request"` are the constructors `InvalidApiKey` and `InvalidRequest` of `Db.AccessResult`.
- The API key and the image id are modelled as strings. A non-string key or id (for example `None`) is not modelled for `verify_apikey` and `get_creature`.
- The read-only queries cannot change any table because they are functions of the class state. The source opens and commits a connection for them, and that has no effect on the rows.
- Vote and ranking updates, sampling by vote count and a suggestions table do not exist in `db.py`. The store only ever writes `ranking = voted = 0`. `Db.Database.Valid` states the intended `0 <= ranking <= voted`. The constructor establishes it, and `AddImage`, `AddApiKey` and `RevokeApiKeys` require and preserve it (their rows above). No other contract relies on it.
- Discord roles are given by integer ids, and the `role in user.roles` test is plain equality. How the Discord library compares its role objects with configured entries is not modelled.
- The Discord command handlers in `bot.py` are not modelled. This covers `file_send`, the D&D 5e API lookups, the dice roll, the image download and file writes, `uuid4` ids, and the `on_ready` and `run` event-loop code. They are network I/O, file I/O or calls into external libraries.
- `main.py` is not part of this model. It is a different bot front end.
- `api.py` is not part of this model. It is Flask routing over the store, and it calls two store functions that `db.py` does not define (`get_all_creatures`, `get_image_ids_by_creature`).
