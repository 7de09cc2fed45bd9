# Session authentication, modelled in Dafny

This project models the session-authentication stack of the
`0x02-Session_authentication` API. It has five layers:

- **Path-exemption policy** (`Auth.require_auth`), module `AuthPolicy`. It also models `authorization_header` and `session_cookie`.
- **In-memory session store** (`SessionAuth`), module `Sessions`. This is a map from session id to user id.
- **Expiring session store** (`SessionExpAuth`), module `ExpiringSessions`. The map values are `{user_id, created_at}` records, and lookups expire lazily against `SESSION_DURATION`.
- **Persistent session store** (`SessionDBAuth`), module `PersistentSessions`. `UserSession` records are kept in storage, and lookup and destroy both take the first matching record.
- **The `User` model's password and display-name logic**, module `Users`.

Two supporting modules:

- `Types` holds Python's `None` (`Option`) and the argument shapes the `type(x) is str` checks tell apart (`Arg`: `None`, a `str`, anything else). It also holds a request as header and cookie maps.
- `Text` holds the two pieces of Python string semantics the layers rely on: `str.strip()` and `int(str)`.

Each session layer is written twice:

- **Pure transition functions.** `Create`, `Lookup` and `Destroy` work over the map or the record sequence. They are specified by what they return and by the state they leave.
- **A class whose methods update the fields in place.** Each method is proved to agree with its transition function.

The lemmas state the round trips, frame conditions and expiry boundaries about the transition functions.

Environment inputs are modelled as parameters:

- **Time.** `datetime.now()` becomes an integer `now`, in microseconds. `timedelta(seconds=D)` is therefore `D * 1_000_000`.
- **Session ids.** `uuid4()` becomes a caller-supplied `freshId`, which must not already be in use.
- **Environment variables.** `SESSION_NAME` and `SESSION_DURATION` become optional strings.
- **Storage failure.** A storage search that raises becomes the flag `searchRaises`.
- **SHA-256.** It becomes a function parameter, and nothing is assumed about it.

`require_auth` builds a regular expression from each exclusion and tries it with `re.match`. The match is anchored only at the start of the path. Each of the three patterns it builds matches exactly the paths that start with the exclusion's *stem*:

- `<stem>.*` for an exclusion with a trailing `*`;
- `<stem>/*` for one with a trailing `/`;
- `<exclusion>/*` otherwise.

The stem is the stripped exclusion without one trailing `*` or `/`. The model states this prefix rule directly.

An exclusion that strips to the empty string makes `exclusion_path[-1]` raise `IndexError`. The model keeps this as the outcome `RaisesIndexError`, and it happens only when the scan reaches that exclusion.

Three points about the code that the model keeps as written:

- **Plain exclusions are prefix matches.** An exclusion ending in neither `*` nor `/` exempts every path that starts with it, because `re.match` does not anchor the end (`auth.py:38-40`). So `/api/v1/stat` exempts `/api/v1/status`.
- **Only search errors are caught.** The persistent store catches exceptions from `search()` (`session_db_auth.py:56-59`, `79-82`). Exceptions from `save()` and `remove()` propagate.
- **No never-expires case in the persistent store.** Its lookup has no branch for a duration of at most 0 (`session_db_auth.py:62-67`), although the docstring it inherits says 0 never expires (`session_exp_auth.py:22-23`). With duration 0 a stored session expires as soon as `now` passes its creation instant.

## Model

| member | source | states |
|---|---|---|
| AuthPolicy.AuthRequired | 0x02-Session_authentication/api/v1/auth/auth.py:28-42 | authentication is required whenever the path or the exclusion list is `None`, and when the list is empty |
| AuthPolicy.RequireAuth | 0x02-Session_authentication/api/v1/auth/auth.py:28-42 | the loop over the stripped exclusions, with its early returns and the three pattern cases, reaches the decision of the scan over the list in order |
| AuthPolicy.ExemptionFound | 0x02-Session_authentication/api/v1/auth/auth.py:32-41 | an exclusion that exempts the path, with only non-blank exclusions before it, makes the scan return `False` |
| AuthPolicy.NoExemptionFound | 0x02-Session_authentication/api/v1/auth/auth.py:32-42 | when no stripped exclusion is blank or exempts the path, the scan returns `True` |
| AuthPolicy.RequiredIffNoExemption | 0x02-Session_authentication/api/v1/auth/auth.py:32-42 | with no blank exclusion, the result is `False` iff some stripped exclusion exempts the path |
| AuthPolicy.OrderIrrelevant | 0x02-Session_authentication/api/v1/auth/auth.py:32-42 | with no blank exclusion, reordering the exclusion list (any permutation) does not change the decision |
| AuthPolicy.BlankFound | 0x02-Session_authentication/api/v1/auth/auth.py:32-34 | a blank exclusion reached before any exempting one raises `IndexError` |
| AuthPolicy.RaisedAtBlank | 0x02-Session_authentication/api/v1/auth/auth.py:32-41 | a scan that raises has reached a blank exclusion, after passing over every exclusion before it |
| AuthPolicy.RaisesOnlyAtBlank | 0x02-Session_authentication/api/v1/auth/auth.py:32-41 | `require_auth` raises `IndexError` only at a blank exclusion that every earlier exclusion let the path pass |
| AuthPolicy.RaisesAtFirstBlank | 0x02-Session_authentication/api/v1/auth/auth.py:32-34 | conversely, a blank exclusion that every earlier exclusion let the path pass makes `require_auth` raise `IndexError` |
| AuthPolicy.ScanSingle | 0x02-Session_authentication/api/v1/auth/auth.py:32-42 | with one exclusion: `IndexError` if it is blank, else `False` exactly when it exempts the path |
| AuthPolicy.StarExclusion | 0x02-Session_authentication/api/v1/auth/auth.py:34-41 | an exclusion ending in `*` exempts exactly the paths that start with the text before the `*` |
| AuthPolicy.SlashExclusion | 0x02-Session_authentication/api/v1/auth/auth.py:36-41 | an exclusion ending in `/` exempts exactly the paths starting with the text before the slash; this includes the exclusion itself and the exclusion without its slash |
| AuthPolicy.PlainExclusion | 0x02-Session_authentication/api/v1/auth/auth.py:38-41 | an exclusion ending in neither `*` nor `/` exempts exactly the paths starting with it, so every extension of it is exempt too |
| AuthPolicy.AuthorizationHeader | 0x02-Session_authentication/api/v1/auth/auth.py:44-49 | the result is `None` when there is no request or no `Authorization` header, and that header's value otherwise |
| AuthPolicy.SessionCookie | 0x02-Session_authentication/api/v1/auth/auth.py:56-61 | the result is `None` when there is no request, `SESSION_NAME` is unset or the cookie is absent, and the cookie's value otherwise |
| Text.Strip | 0x02-Session_authentication/api/v1/auth/auth.py:32 | a stripped exclusion is empty or starts and ends with a non-whitespace character |
| Text.StripEmptyIffBlank | 0x02-Session_authentication/api/v1/auth/auth.py:32-34 | an exclusion strips to the empty string iff it is all whitespace; these are exactly the exclusions that raise |
| Text.IntStrip | 0x02-Session_authentication/api/v1/auth/session_exp_auth.py:35 | the result is empty or has no skipped whitespace at either end; a string whose first character is not skipped keeps that character |
| Text.IntStripRemovesOnlySpace | 0x02-Session_authentication/api/v1/auth/session_exp_auth.py:35 | the result is a slice of the input, and everything cut off on either side is whitespace that `int()` skips |
| Text.IntStripPadded | 0x02-Session_authentication/api/v1/auth/session_exp_auth.py:35 | skipped whitespace around a text with non-whitespace ends is removed and the text is kept whole |
| Text.ParseInt | 0x02-Session_authentication/api/v1/auth/session_exp_auth.py:35 | `int(s)` succeeds only when something other than skipped whitespace remains, and a negative value has a leading `-` |
| Text.LeadingSeparatorRejected | 0x02-Session_authentication/api/v1/auth/session_exp_auth.py:35 | `int()` rejects a string that starts with an information separator (U+001C to U+001F) |
| Text.ParseIntOfDecimal | 0x02-Session_authentication/api/v1/auth/session_exp_auth.py:35 | `int(str(n)) == n` for every integer `n` |
| Text.ParseIntPadded | 0x02-Session_authentication/api/v1/auth/session_exp_auth.py:35 | `int()` reads `str(n)` back as `n` through any skipped whitespace around it |
| Sessions.Lookup | 0x02-Session_authentication/api/v1/auth/session_auth.py:44-45 | the result is the stored user id when the argument is a string key of the map, and `None` otherwise |
| Sessions.Create | 0x02-Session_authentication/api/v1/auth/session_auth.py:29-32 | a non-string user id gives `None` and leaves the map unchanged; otherwise the call returns the fresh id, binds it to the user, adds exactly that key and changes no other lookup |
| Sessions.Destroy | 0x02-Session_authentication/api/v1/auth/session_auth.py:68-74 | the result is `True` iff the cookie names a session in the map; then exactly that key is gone and no other lookup changes; on `False` the map is unchanged |
| Sessions.CreateThenLookup | 0x02-Session_authentication/api/v1/auth/session_auth.py:29-45 | looking up the id `create_session(u)` returns gives back `u` |
| Sessions.TwoSessionsForOneUser | 0x02-Session_authentication/api/v1/auth/session_auth.py:29-32 | two creates for one user give distinct ids, and both resolve to that user |
| Sessions.DestroyUndoesCreate | 0x02-Session_authentication/api/v1/auth/session_auth.py:29-74 | destroying a freshly created session returns `True` and gives back the map as it was before the create |
| Sessions.DestroyTwice | 0x02-Session_authentication/api/v1/auth/session_auth.py:68-74 | a second destroy of the same cookie returns `False` and changes nothing |
| Sessions.SessionAuth.constructor | 0x02-Session_authentication/api/v1/auth/session_auth.py:18 | the store starts with an empty map |
| Sessions.SessionAuth.CreateSession | 0x02-Session_authentication/api/v1/auth/session_auth.py:20-32 | the in-place update returns and leaves what `Sessions.Create` does |
| Sessions.SessionAuth.UserIdForSessionId | 0x02-Session_authentication/api/v1/auth/session_auth.py:34-45 | the lookup on the store's map is `Sessions.Lookup`: the user for a known string id, else `None`, and nothing changes |
| Sessions.SessionAuth.DestroySession | 0x02-Session_authentication/api/v1/auth/session_auth.py:59-74 | the in-place delete returns and leaves what `Sessions.Destroy` does |
| ExpiringSessions.SessionDuration | 0x02-Session_authentication/api/v1/auth/session_exp_auth.py:33-37 | the duration is the parsed `SESSION_DURATION`; it is 0 when the variable is unset or does not parse, and never an exception |
| ExpiringSessions.ReadDuration | 0x02-Session_authentication/api/v1/auth/session_exp_auth.py:34-37 | the `try`/`except` that both constructors run gives exactly `SessionDuration` of the environment value |
| ExpiringSessions.SeparatorDurationIsZero | 0x02-Session_authentication/api/v1/auth/session_exp_auth.py:34-37 | a `SESSION_DURATION` that starts with an information separator does not parse, so the duration is 0 |
| ExpiringSessions.PaddedDuration | 0x02-Session_authentication/api/v1/auth/session_exp_auth.py:34-37 | a `SESSION_DURATION` holding `str(n)` with skipped whitespace around it gives duration `n` |
| ExpiringSessions.DurationOfDecimal | 0x02-Session_authentication/api/v1/auth/session_exp_auth.py:35 | a duration written out in decimal is read back exactly |
| ExpiringSessions.Lookup | 0x02-Session_authentication/api/v1/auth/session_exp_auth.py:67-78 | the result is the stored user id iff the argument is a known string id and its record is live, and `None` otherwise |
| ExpiringSessions.Create | 0x02-Session_authentication/api/v1/auth/session_exp_auth.py:48-55 | a non-string user id gives `None` and leaves the map unchanged; otherwise the new id's entry is `{user_id, created_at: now}`, exactly that key is added and other entries are unchanged |
| ExpiringSessions.Destroy | 0x02-Session_authentication/api/v1/auth/session_auth.py:68-74 | the inherited destroy returns `True` iff the cookie names a live session, and then removes exactly that key; on `False` the map is unchanged |
| ExpiringSessions.NeverExpires | 0x02-Session_authentication/api/v1/auth/session_exp_auth.py:69-70 | with a duration of at most 0, a known id resolves to its user at every instant |
| ExpiringSessions.ExpiryBoundary | 0x02-Session_authentication/api/v1/auth/session_exp_auth.py:73-78 | with a duration D > 0, a record created at `t` resolves iff `now <= t + D`; the instant `t + D` still resolves and the next one does not |
| ExpiringSessions.MissingCreatedAt | 0x02-Session_authentication/api/v1/auth/session_exp_auth.py:71-72 | with a positive duration, a record without `created_at` never resolves |
| ExpiringSessions.ExpiryIsFinal | 0x02-Session_authentication/api/v1/auth/session_exp_auth.py:67-78 | a lookup that fails at one instant fails at every later one |
| ExpiringSessions.CreateThenLookup | 0x02-Session_authentication/api/v1/auth/session_exp_auth.py:48-78 | a session created at `t` resolves at `now` iff the duration is at most 0 or `now <= t + D` |
| ExpiringSessions.ExpiredStays | 0x02-Session_authentication/api/v1/auth/session_exp_auth.py:67-78 | an expired session cannot be destroyed: the destroy returns `False` and the record stays as it was |
| ExpiringSessions.SessionExpAuth.constructor | 0x02-Session_authentication/api/v1/auth/session_exp_auth.py:26-37 | the duration field is `SessionDuration` of the environment value, and the map starts empty |
| ExpiringSessions.SessionExpAuth.CreateSession | 0x02-Session_authentication/api/v1/auth/session_exp_auth.py:39-55 | the in-place overwrite returns and leaves what `ExpiringSessions.Create` does |
| ExpiringSessions.SessionExpAuth.UserIdForSessionId | 0x02-Session_authentication/api/v1/auth/session_exp_auth.py:57-78 | the lookup on the store's map and duration at instant `now` is `ExpiringSessions.Lookup`, and nothing changes |
| ExpiringSessions.SessionExpAuth.DestroySession | 0x02-Session_authentication/api/v1/auth/session_auth.py:59-74 | the inherited destroy, run against the expiring lookup, returns and leaves what `ExpiringSessions.Destroy` does |
| PersistentSessions.Search | 0x02-Session_authentication/api/v1/auth/session_db_auth.py:57 | the search finds no more records than storage holds |
| PersistentSessions.SearchFinds | 0x02-Session_authentication/api/v1/auth/session_db_auth.py:57 | the search finds exactly the stored records whose `session_id` equals the argument |
| PersistentSessions.SearchAppend | 0x02-Session_authentication/api/v1/auth/session_db_auth.py:57 | searching storage `a + b` lists the matches in `a` first, then the matches in `b` |
| PersistentSessions.RemoveFirst | 0x02-Session_authentication/api/v1/auth/session_db_auth.py:85 | with no match storage is unchanged; with a match exactly one record is removed |
| PersistentSessions.RemoveFirstKeepsLaterMatches | 0x02-Session_authentication/api/v1/auth/session_db_auth.py:85 | removing the first match leaves the later matches for that id, in order |
| PersistentSessions.RemoveFirstKeepsOthers | 0x02-Session_authentication/api/v1/auth/session_db_auth.py:85 | removing the first match for one id changes no search for another id |
| PersistentSessions.RemoveFirstDeletesOne | 0x02-Session_authentication/api/v1/auth/session_db_auth.py:85 | removal deletes exactly one record, the first match, as a multiset |
| PersistentSessions.Lookup | 0x02-Session_authentication/api/v1/auth/session_db_auth.py:56-67 | the result is `None` on a failed search or no match; otherwise it is the first match's user id iff `now <= created_at + D`, with no special case for D <= 0 |
| PersistentSessions.Create | 0x02-Session_authentication/api/v1/auth/session_db_auth.py:37-45 | a non-string user id gives `None` and changes neither the map nor storage; otherwise the call writes the expiring record, appends exactly one `UserSession(u, id, now)` to storage and returns the id |
| PersistentSessions.Destroy | 0x02-Session_authentication/api/v1/auth/session_db_auth.py:78-86 | the result is `True` iff the search succeeds and finds a match; then the first match for the cookie is removed; on `False` storage is unchanged |
| PersistentSessions.CreateThenLookup | 0x02-Session_authentication/api/v1/auth/session_db_auth.py:37-67 | a session saved at `t` under an unused id resolves at `now` iff `now <= t + D`; with D < 0 it never resolves, not even at `t` |
| PersistentSessions.FirstMatchDecides | 0x02-Session_authentication/api/v1/auth/session_db_auth.py:60-67 | records after the first match never affect the lookup |
| PersistentSessions.DestroyThenLookup | 0x02-Session_authentication/api/v1/auth/session_db_auth.py:78-86 | a destroy that finds the cookie's session returns `True` and drops one record for the id; when it was the only one, the id no longer resolves |
| PersistentSessions.SessionDBAuth.constructor | 0x02-Session_authentication/api/v1/auth/session_exp_auth.py:26-37 | the inherited constructor: the duration is `SessionDuration`, the map is empty and storage holds what it held |
| PersistentSessions.SessionDBAuth.CreateSession | 0x02-Session_authentication/api/v1/auth/session_db_auth.py:28-45 | the in-place create returns and leaves the map and storage that `PersistentSessions.Create` gives |
| PersistentSessions.SessionDBAuth.UserIdForSessionId | 0x02-Session_authentication/api/v1/auth/session_db_auth.py:47-67 | the lookup on storage with the store's duration is `PersistentSessions.Lookup`, and storage is never changed |
| PersistentSessions.SessionDBAuth.DestroySession | 0x02-Session_authentication/api/v1/auth/session_db_auth.py:69-86 | the in-place destroy returns and leaves the storage that `PersistentSessions.Destroy` gives, and never touches the in-memory map |
| Users.Utf8Encode | 0x02-Session_authentication/models/user.py:55 | `str.encode()` uses 1 to 4 bytes per character |
| Users.HexDigest | 0x02-Session_authentication/models/user.py:55 | `.hexdigest()` gives two lower-case hexadecimal digits per byte |
| Users.Lower | 0x02-Session_authentication/models/user.py:55 | `.lower()` keeps the length, maps `A`-`Z` to `a`-`z` and leaves other characters as they are |
| Users.PasswordDigest | 0x02-Session_authentication/models/user.py:55 | the stored digest has two lower-case hexadecimal digits per SHA-256 byte |
| Users.HexDigestInjective | 0x02-Session_authentication/models/user.py:55 | different digests give different hexadecimal renderings |
| Users.LowerKeepsHexDigest | 0x02-Session_authentication/models/user.py:55 | `.lower()` leaves a hexadecimal digest unchanged |
| Users.User.constructor | 0x02-Session_authentication/models/user.py:20-31 | the fields are as given, and `_password` is stored without hashing |
| Users.User.SetPassword | 0x02-Session_authentication/models/user.py:42-55 | the setter stores `None` for `None` or a non-string, and the lower-case hex SHA-256 of the UTF-8 encoding otherwise |
| Users.User.IsValidPassword | 0x02-Session_authentication/models/user.py:57-71 | a candidate is accepted iff it is a string, a password is stored, and the candidate's digest equals the stored one |
| Users.User.DisplayName | 0x02-Session_authentication/models/user.py:73-89 | five cases: `""` when nothing is set; the email when neither name is set; the first name alone; the last name alone; and `"first last"` when both are set |
| Users.SetThenValid | 0x02-Session_authentication/models/user.py:55-71 | after `password = p`, `is_valid_password(p)` is `True` |
| Users.ValidIffSameDigest | 0x02-Session_authentication/models/user.py:55-71 | after `password = p`, a string `q` is accepted iff SHA-256 gives the same digest for the encodings of `q` and `p` |
| Users.NothingValidWithoutPassword | 0x02-Session_authentication/models/user.py:66-69 | nothing is accepted when no password is stored or the candidate is not a string |

## Left out

- **Regular expressions.** Exclusions are taken as literal text. A regular-expression metacharacter inside an exclusion, such as `.`, `+` or `[`, matches as the character itself in the model. The pattern `re.compile` would build is not modelled.
- **Header names.** The request's headers are an exact-key map. Flask's case-insensitive header lookup is not modelled.
- **`current_user`.** Both the base `current_user` and `SessionAuth.current_user` are left out. The second one looks the user up with `User.get` in a persistence layer that is not part of this model.
- **The shared session map.** `user_id_by_session_id` is a class attribute, so all instances share it, and it may be accessed concurrently. The model has one store object per class instance and no concurrency.
- **Session-id collisions.** `uuid4()` becomes a `freshId` parameter with a precondition that it is unused, so a collision with an existing id is not modelled.
- **Unhashable session ids.** A non-string session id is assumed hashable. An unhashable one, such as a list, makes `in` on the dict raise `TypeError`; the model answers `None` for every non-string id.
- **Storage internals.** The `Base` storage internals are not part of this model. Storage is a sequence of records: `save()` appends, `search()` filters in order, and `remove()` deletes the first matching record.
- **Storage timestamps.** A stored record's `created_at` is the instant passed to create. Any difference between the storage's clock and `datetime.now()` is not modelled.
- **Storage exceptions.** Exceptions from `save()` and `remove()` are not modelled. The code does not catch them, so they would propagate.
- **Time.** Time is an unbounded integer count of microseconds. The `OverflowError` that `timedelta` and `datetime` raise for very large durations is not modelled.
- **`int()` input range.** `int()` is modelled for ASCII digits, an optional sign, single underscores between digits, and the whitespace it skips at both ends. That whitespace is every `str.isspace()` character except U+001C to U+001F. Non-ASCII decimal digits and the interpreter's limit on the number of digits are not modelled.
- Users.Lower: lower-cases ASCII letters only. It is applied only to hexadecimal digests, which contain no other letters.
- Users.Utf8Encode, Users.User.SetPassword, Users.User.IsValidPassword: a Python string may hold a lone surrogate such as U+D800, and `.encode()` then raises `UnicodeEncodeError` in the setter and in `is_valid_password`. A Dafny `char` cannot hold a surrogate, so such passwords cannot be represented and both operations are total in the model.
- **SHA-256.** It is a function parameter. No cryptographic property is assumed or proved.
- **`User` base fields.** The fields `User` inherits from `Base` (id, timestamps, serialisation) are left out.
- AuthPolicy.AuthRequired: its own contract gives only the `None` and empty-list cases. The full decision is stated by `AuthPolicy.RequiredIffNoExemption`, `AuthPolicy.RaisesOnlyAtBlank` and `AuthPolicy.RaisesAtFirstBlank`.
