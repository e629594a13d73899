# Planning page with login: a Dafny model

This project models the core of a small login-protected planning ("PCP")
application. The server side is an Express API over a Postgres database.
The client side is a React page that embeds the planning document in an
iframe. The model covers five pieces:

- **The token and session layer** (`Auth`, the token half of `Storage`, and the guards in `Routes`):
  - a token table maps each token to a user and an expiry time;
  - a token lives 30 days;
  - an expired token is deleted when it is looked up;
  - one token, or every token of one user, can be revoked;
  - the bearer middleware and the 401/403 guards;
  - the login decision chain.
- **The keyed plan repository** (`Storage`, `Table`, and save-all / full-state in `Routes`):
  - three per-week buckets: states, comments and notes;
  - two singletons: params and coverage;
  - every save is a select-then-update-or-insert upsert.
- **ISO 8601 week keys** (`IsoWeek`):
  - the current week, following the week calendar of ISO 8601:2004, section 3.2.2 (weeks start on Monday, and week 01 contains 4 January);
  - adding n weeks to a `YYYY-Www` key, the reduced representation of section 4.1.4;
  - the nine-week window.
- **The host page** (`PcpHost`):
  - the iframe message handler;
  - the state capture: a direct read first, otherwise a message round trip through a one-slot resolver, guarded by a 3000 ms timer that retries the direct read once;
  - the save procedure and the hydration messages.
- **The browser session** (`AuthClient`):
  - the `auth_token` and `guest_mode` local-storage keys and the bearer header;
  - the `/me` lookup, login, guest and logout actions, and the derived flags.

How each part of the source is represented:

- **Stateful code.** `DatabaseStorage`, the page and the browser storage are classes. Their methods change fields in place and state the whole new state in their contracts.
- **Tables.** A table is a sequence of rows (`Table.Row`). `Table.ToMap` reads a table as a dictionary: when keys repeat, the later row wins, as the `for` loops that build dictionaries do. The `unique()` constraints of the schema are the class invariant `Storage.DatabaseStorage.Valid`.
- **JavaScript values.** `Values.Value` models them with `undefined`, truthiness, `typeof === "object"`, `||`, `??` and `Object.entries`.
- **Calendar arithmetic.** It counts whole days since 1970-01-01.
- **Parameters.** The clock, random bytes, the key-derivation function, the replies of the server and the result of the iframe's direct read are all parameters.

Three behaviours of the code are worth stating outright:

- **Token expiry.** A token is expired only when `expiresAt < now` (server/storage.ts:173). So it still authenticates at exactly `expiresAt`.
- **Login with a null body.** A null or absent body makes the login handler throw while destructuring it (server/routes.ts:82), so the answer is 500 and not 400.
- **Dates of years 0 to 99.** `Date.UTC` reads a year from 0 to 99 as 1900 + year. Both week helpers rebuild a date through `Date.UTC` from its year, month and day (server/routes.ts:9 and 25), and so does the start of the year (server/routes.ts:12 and 21). The model does the same in `IsoWeek.UtcRebuild` and `IsoWeek.UtcYear`. So `addWeeksToISO("100-W01", -1)` lands on 28 December 99, is rebuilt as 28 December 1999, and gives `"1999-W52"`.

## Model

| member | source | states |
|---|---|---|
| Values.Get | server/routes.ts:134 | a property read gives the property's value when the value is an object that has it, and `undefined` otherwise |
| Values.FirstEntriesSpec | server/routes.ts:137 | `Object.entries` of an array prefix has one decimal key per index, each giving back its item |
| Values.IndexEntriesSpec | server/routes.ts:137 | `Object.entries` of an array has exactly the keys "0".."n-1", each giving back its item |
| Numerals.NatToString | server/routes.ts:14 | `String(n)` is a non-empty run of digits, with a leading 0 only for 0 |
| Numerals.PadStart2 | server/routes.ts:14 | `padStart(2, '0')` ends with the original text and pads with zeros to length 2 |
| Numerals.ParseInt | server/routes.ts:19-20 | `parseInt` is NaN exactly when no digit follows the white space and sign |
| Numerals.ValueOfNatToString | server/routes.ts:14 | reading back the decimal spelling of n gives n |
| Numerals.ParseIntOfIntToString | server/routes.ts:19-20 | `parseInt(String(n)) == n` for every integer |
| Numerals.ParseIntOfPadded | server/routes.ts:14-20 | `parseInt` of a week number padded to two digits gives the number back |
| Table.FindFrom | server/storage.ts:78 | the first row at or after a position with the key, or none |
| Table.Select | server/storage.ts:73-74 | `SELECT … WHERE key = k` finds a row exactly when k is a stored key, and returns that row's payload |
| Table.MapOfFirstKeys | server/storage.ts:94-96 | the dictionary built from the rows has exactly their keys |
| Table.MapOfFirstAt | server/storage.ts:94-96 | with unique keys each row is found in the dictionary with its payload |
| Table.SelectIsToMap | server/storage.ts:73-74 | with unique keys the first-row lookup and the dictionary agree |
| Table.MapOfFirstSize | server/routes.ts:197-200 | with unique keys the dictionary has one entry per row |
| Table.MapOfFirstAppend | server/storage.ts:82 | inserting a row leaves what the earlier rows read into unchanged |
| Table.InsertSpec | server/storage.ts:81-82 | the INSERT branch makes the key read the new payload and keeps the keys unique |
| Table.MapOfFirstUpdate | server/storage.ts:79-80 | how the UPDATE branch changes the dictionary of a prefix |
| Table.UpdateSpec | server/storage.ts:79-80 | the UPDATE branch makes the key read the new payload, keeps the key set and keeps the keys unique |
| Table.UpsertSpec | server/storage.ts:77-84 | after an upsert the key reads the new payload, every other key reads as before, and the keys stay unique |
| Table.SelectAfterUpsert | server/storage.ts:72-84 | the first-row lookup after an upsert finds the new payload for k and the old answer for any other key |
| Table.Collect | server/storage.ts:91-98 | the loop building `out` in a `{}` literal yields the dictionary of the rows without the key `__proto__`, which the assignment does not store: exactly the other keys, each with its row's payload |
| Table.CollectAll | server/routes.ts:196-199 | the same loop into a dictionary without a prototype keeps every row's key, each with its row's payload |
| Storage.UserWithId | server/storage.ts:53-56 | `getUser` finds a user with that id exactly when one is stored |
| Storage.UserNamed | server/storage.ts:58-61 | `getUserByUsername` finds a user with that name exactly when one is stored |
| Storage.AppendUser | server/storage.ts:63-69 | a user with a new name and id is found under both after insertion |
| Storage.InsertUser | shared/schema.ts:7-8 | inserting under the next serial id with a new name keeps usernames and ids unique and below the serial |
| Storage.LookupAfterUpsert | server/storage.ts:72-84 | after a save under k, reading k gives the saved value (`?? null`) and every other key reads as before |
| Storage.LookupMissing | server/storage.ts:74 | a week with no row reads as the fallback (`null`, or `""` for notes) |
| Storage.SaveFirst | server/storage.ts:128-135 | the singleton save rewrites the first row and leaves any others, or inserts into an empty table |
| Storage.SaveFirstSpec | server/storage.ts:123-135 | on a table of at most one row the save leaves exactly one row, which is read back |
| Storage.Resolve | server/storage.ts:169-178 | a token resolves exactly when it is stored and `now <= expiresAt` |
| Storage.Expire | server/storage.ts:173-175 | the lookup's deletion removes at most that token and changes no other row |
| Storage.ResolveStable | server/storage.ts:169-178 | a second lookup at the same time answers the same and deletes nothing more; other tokens are unaffected |
| Storage.ExpireDeletes | server/storage.ts:173-175 | the lookup deletes exactly when the token exists and `expiresAt < now` |
| Storage.WithoutUserSpec | server/storage.ts:184-186 | after `deleteUserTokens(u)` no token resolves to u, and other users' tokens resolve as before |
| Storage.DeletedTokenGone | server/storage.ts:180-182 | a deleted token never resolves again, and no other token changes |
| Storage.DatabaseStorage.constructor | shared/schema.ts:6-51 | all tables start empty, and the invariant holds |
| Storage.DatabaseStorage.CreateUser | server/storage.ts:63-70 | a new name is stored under the next id with `isAdmin ?? false`, then is found by name and id; a taken name fails and leaves the users as they were; either way the `serial` advances by one, since it is drawn before the unique check |
| Storage.DatabaseStorage.SavePcpState | server/storage.ts:72-84 | the upsert: `getPcpState(k)` then returns the data, other weeks are unchanged, and uniqueness is kept |
| Storage.DatabaseStorage.GetAllPcpStates | server/storage.ts:86-89 | every row of the states table, in order |
| Storage.DatabaseStorage.SavePcpComments | server/storage.ts:109-121 | the upsert: `getPcpComments(k)` then returns the data, and other weeks are unchanged |
| Storage.DatabaseStorage.GetAllPcpComments | server/storage.ts:91-98 | exactly the stored week keys other than `__proto__`, each with its stored comments |
| Storage.DatabaseStorage.SavePcpNotes | server/storage.ts:151-163 | the upsert: `getPcpNotes(k)` then returns the text (`?? ""`), and other weeks are unchanged |
| Storage.DatabaseStorage.GetAllPcpNotes | server/storage.ts:100-107 | exactly the stored week keys other than `__proto__`, each with its stored notes |
| Storage.DatabaseStorage.SavePcpParams | server/storage.ts:123-135 | update-first-or-insert leaves exactly one row, the saved value, which `getPcpParams` returns |
| Storage.DatabaseStorage.SavePcpCoverage | server/storage.ts:137-149 | update-first-or-insert leaves exactly one row, the saved value, which `getPcpCoverage` returns |
| Storage.DatabaseStorage.SaveToken | server/storage.ts:165-167 | inserts the row; a token already stored violates the unique column and changes nothing |
| Storage.DatabaseStorage.GetUserIdByToken | server/storage.ts:169-178 | answers `Resolve` and deletes the token exactly when it has expired |
| Storage.DatabaseStorage.DeleteToken | server/storage.ts:180-182 | removes exactly that token |
| Storage.DatabaseStorage.DeleteUserTokens | server/storage.ts:184-186 | removes exactly the tokens of that user |
| Auth.HexEncode | server/auth.ts:11-13 | hex text has two characters per byte |
| Auth.HexDecodeFrom | server/auth.ts:21 | `Buffer.from(s, "hex")` decodes at most one byte per pair of characters |
| Auth.HexEncodeAt | server/auth.ts:13 | byte n is spelled by its high and low nibble at positions 2n and 2n+1 |
| Auth.HexByte | server/auth.ts:13 | each nibble digit reads back as its nibble |
| Auth.HexPair | server/auth.ts:21 | the n-th pair of a hex spelling decodes to the n-th byte |
| Auth.HexDecodeEncodeFrom | server/auth.ts:13-21 | decoding the spelling from pair n on gives the bytes from n on |
| Auth.HexRoundTrip | server/auth.ts:13-21 | decoding the hex spelling of bytes gives the bytes back |
| Auth.HexHasNoDot | server/auth.ts:13-20 | hex text contains no dot, so splitting the stored hash at "." is unambiguous |
| Auth.FindChar | server/auth.ts:20 | the first occurrence of a character at or after a position, or none |
| Auth.SplitHashed | server/auth.ts:13-20 | `split(".")` of a stored hash gives back the digest and the salt |
| Auth.CompareHashed | server/auth.ts:10-24 | checking against `hashPassword(p)` succeeds and is true exactly when the supplied password derives the same key; p itself is accepted |
| Auth.CompareMalformed | server/auth.ts:20-23 | a stored value with no salt, or whose digest is not 64 bytes, makes the comparison throw |
| Auth.BearerToken | server/auth.ts:38-40 | a token is taken exactly when the header starts with "Bearer ", and it is the rest of the header |
| Auth.BearerOfToken | server/routes.ts:104-106 | the header "Bearer " + t yields t |
| Auth.AuthenticateSpec | server/auth.ts:37-54 | authenticated exactly when a live token of an existing user with a non-zero id is presented, as that user |
| Auth.IssuedTokenAuthenticates | server/auth.ts:26-31 | a token from `createToken` authenticates its user up to expiry and nobody after |
| Auth.RemovedTokenRejected | server/auth.ts:33-35 | a removed token authenticates nobody |
| Auth.CreateToken | server/auth.ts:26-31 | stores the hex token for the user with an expiry 30 days after now, or fails without change on a duplicate |
| Auth.RemoveToken | server/auth.ts:33-35 | deletes exactly that token |
| Auth.AuthMiddleware | server/auth.ts:37-54 | the context is `Authenticate`, authenticated exactly when a user is set, and the only table change is the expiry deletion |
| IsoWeek.YearStartStep | server/routes.ts:12 | consecutive years start a year's length apart |
| IsoWeek.YearStartMonotone | server/routes.ts:12 | later years start later |
| IsoWeek.YearOf | server/routes.ts:12-14 | `getUTCFullYear()` is the year whose days contain the day |
| IsoWeek.YearOfUnique | server/routes.ts:12-14 | a day belongs to exactly one year |
| IsoWeek.YearOfMonotone | server/routes.ts:12-14 | later days never fall in earlier years |
| IsoWeek.IsoDayIsWeekdayOrSeven | server/routes.ts:10 | `getUTCDay() \|\| 7` numbers Monday 1 through Sunday 7 |
| IsoWeek.ThursdayFacts | server/routes.ts:10-11 | the date moves to the Thursday of its Monday-start week, at most three days away |
| IsoWeek.ShiftByWeeks | server/routes.ts:24-27 | moving by whole weeks moves the week's Thursday and Monday by as much |
| IsoWeek.ThursdayOfMonday | server/routes.ts:24-27 | the Monday of a week has that week's Thursday |
| IsoWeek.FirstThursday | server/routes.ts:21-22 | the first Thursday of a year is among its first seven days |
| IsoWeek.WeekNumberFacts | server/routes.ts:13 | for a day whose ISO year is outside 0..99, the week number is in 1..53 and counts Thursdays from the year's first |
| IsoWeek.MondayOfWeekOfDay | server/routes.ts:21-24 | for a day whose ISO year is outside 0..99, the Monday rebuilt from its year and week number, via 4 January, is that day's Monday |
| IsoWeek.FindSeparator | server/routes.ts:18 | the first "-W" at or after a position, or none |
| IsoWeek.SplitFormattedKey | server/routes.ts:14-18 | `split('-W')` of a formatted key yields the year text and the week text |
| IsoWeek.ParseFormattedKey | server/routes.ts:14-20 | the year and week parsed from a formatted key are the ones formatted |
| IsoWeek.ParseDayKey | server/routes.ts:7-20 | the key of a day parses back as its ISO year and week |
| IsoWeek.UtcRebuildSpec | server/routes.ts:9-25 | the `Date.UTC` rebuild leaves a day of a year outside 0..99 alone, and moves a day of a year from 0 to 99 into year 1900 + year |
| IsoWeek.MondayYear | server/routes.ts:24-25 | the Monday of a week whose ISO year is outside 0..99 lies in a year outside 0..99, and in year 100 or later once the ISO year is |
| IsoWeek.CurrentWeekOfDay | server/routes.ts:7-15 | from ISO year 100 on, `getCurrentISOWeek()` is the key of today's week, the rebuild of today changing nothing |
| IsoWeek.AddWeeksRebuilt | server/routes.ts:17-31 | for a day whose ISO year is outside 0..99, adding n weeks to its key takes the key of the rebuilt day n weeks after the Monday of its week |
| IsoWeek.AddWeeksToDayKey | server/routes.ts:17-31 | when neither the week of t nor the week n weeks later has an ISO year in 0..99, adding n weeks to t's key gives the key of the day 7n days later |
| IsoWeek.AddZeroWeeks | server/routes.ts:17-31 | `addWeeksToISO(k, 0) == k` for every key the server produces |
| IsoWeek.SameKeySameWeek | server/routes.ts:7-14 | for days whose ISO years are outside 0..99, two days share a key only if they share a Monday-start week |
| IsoWeek.IsoYearMonotone | server/routes.ts:7-14 | the ISO year never decreases from a week to a later one |
| IsoWeek.WindowKey | server/routes.ts:33-38 | key n of the window is the key of the day 7n days after today |
| IsoWeek.DistinctWeeks | server/routes.ts:33-38 | for days whose ISO years are outside 0..99, days in different weeks have different keys |
| IsoWeek.DifferentThursdayKeys | server/routes.ts:7-14 | for Thursdays whose years are outside 0..99, different Thursdays have different keys |
| IsoWeek.ExpectedWeekKeys | server/routes.ts:33-40 | the loop yields exactly nine keys: the current week first, then each the week after the previous one, all different |
| IsoWeek.WindowFacts | server/routes.ts:33-40 | the nine keys are the weeks of today and the eight days 7, 14, … later, distinct, each following the previous |
| IsoWeek.WindowFirst | server/routes.ts:34-37 | the window starts with the current week |
| IsoWeek.WindowSuccessor | server/routes.ts:36-37 | for window weeks whose ISO years are outside 0..99, each later key of the window is the week right after the previous key |
| IsoWeek.NextWeekKey | server/routes.ts:17-31 | when neither week has an ISO year in 0..99, one week after a day's key is the key of the day a week later |
| Routes.RequireAuth | server/routes.ts:42-45 | passes exactly authenticated requests and answers the rest 401 |
| Routes.RequireAdmin | server/routes.ts:47-50 | passes exactly authenticated administrators and answers everyone else 403 |
| Routes.AdminIsAuthenticated | server/routes.ts:42-50 | whatever passes the admin guard passes the authentication guard |
| Routes.SafeUser | server/routes.ts:95 | the user as sent has id, username and isAdmin and no password |
| Routes.LoginAcceptedSpec | server/routes.ts:82-96 | a login is accepted exactly for non-empty string credentials of an existing user whose password compares true |
| Routes.LoginWithHashedPassword | server/routes.ts:86-96 | against a hashed password, the login is accepted exactly when the supplied password derives the same key, and otherwise answered "wrong password" |
| Routes.LoginMissingFields | server/routes.ts:83-85 | a missing username or password is answered 400, whatever users exist |
| Routes.LoginBody | server/routes.ts:95-96 | the success body carries the token and no password |
| Routes.Login | server/routes.ts:80-101 | 400 / 401 / 401 / 500 as decided, a token issued only on success (200, user without password plus token), the token table unchanged otherwise |
| Routes.Logout | server/routes.ts:103-109 | always `{ok: true}`; revokes the header minus "Bearer " exactly when the header starts with it |
| Routes.Me | server/routes.ts:111-115 | 401 when not authenticated, otherwise the user without its password |
| Routes.SavedEntries | server/routes.ts:136-137 | a field that is not a non-null object contributes nothing; an object contributes its entries |
| Routes.MergeStep | server/routes.ts:137-138 | upserting one more entry extends the merged dictionary by that entry |
| Routes.SaveWeeks | server/routes.ts:136-140 | the loop upserts every entry of `weeks`: the states read as before overlaid with those entries |
| Routes.SaveComments | server/routes.ts:142-146 | the loop upserts every entry of `comments` into the comments bucket |
| Routes.SaveNotes | server/routes.ts:152-156 | the loop upserts every entry of `notes` into the notes bucket |
| Routes.SaveBody | server/routes.ts:134-160 | all five writes: the three merges, and params and coverage saved only when truthy; missing fields leave their buckets alone |
| Routes.SaveAll | server/routes.ts:132-167 | a non-admin gets the guard's 403 and nothing is written; a null body is 500; otherwise `{ok: true}` and the writes of `SaveBody` |
| Routes.FullState | server/routes.ts:194-212 | one weeks entry per state row (its key to its data) except a row keyed `__proto__`, the singletons, all comments and notes under the same exception, and the nine-week window |
| Routes.ProtoWeekLost | server/routes.ts:194-212 | a week saved under `__proto__` is stored and read back by `getPcpState`, but full-state has no weeks entry for it and one entry fewer than the state rows |
| AuthClient.HeadersOf | client/src/hooks/use-auth.ts:34-37 | a bearer header for a stored non-empty token, no header otherwise |
| AuthClient.HeaderCarriesToken | client/src/hooks/use-auth.ts:34-37 | the server's middleware reads the client's header back as exactly the stored token |
| AuthClient.Flags | client/src/hooks/use-auth.ts:112-123 | authenticated exactly when there is a user, admin exactly as that user says, never loading in guest mode |
| AuthClient.AdminIsSignedIn | client/src/hooks/use-auth.ts:117-118 | an administrator is always authenticated |
| AuthClient.Browser.constructor | client/src/hooks/use-auth.ts:10-32 | the storage starts with the given keys |
| AuthClient.Browser.SetToken | client/src/hooks/use-auth.ts:14-16 | stores the token and leaves guest mode alone |
| AuthClient.Browser.ClearToken | client/src/hooks/use-auth.ts:18-20 | removes the token, leaving no header, and leaves guest mode alone |
| AuthClient.Browser.SetGuestMode | client/src/hooks/use-auth.ts:22-32 | writes "true" or removes the key, so that guest mode then reads exactly the value set |
| AuthClient.Browser.Me | client/src/hooks/use-auth.ts:42-59 | no request in guest mode or without a token; a 401 drops the token; other failures give no user and keep it |
| AuthClient.Browser.Login | client/src/hooks/use-auth.ts:64-83 | success clears guest mode and stores the token; failure throws the server's message or the default and touches nothing |
| AuthClient.Browser.EnterAsGuest | client/src/hooks/use-auth.ts:85-93 | removes the token and turns guest mode on |
| AuthClient.Browser.Logout | client/src/hooks/use-auth.ts:95-110 | tells the server only when a token is stored; once complete, neither the token nor guest mode remains |
| PcpHost.SettleOnceSpec | client/src/pages/pcp.tsx:106-157 | settling a promise keeps every earlier outcome; a pending one takes the new outcome |
| PcpHost.StatePayload | client/src/pages/pcp.tsx:57-67 | the payload has exactly the keys version, weeks, comments, params and notes; version is 1; each part is the fetched one when that is truthy and `{}` otherwise |
| PcpHost.HydrationMessages | client/src/pages/pcp.tsx:52-74 | the mode message first, then the state if one was fetched, then the coverage if there is any |
| PcpHost.SaveRequestBody | client/src/pages/pcp.tsx:173-179 | four parts defaulting to `{}`; coverage from the state, else the live coverage, else the fetched one, else null |
| PcpHost.PostedBodyOnServer | client/src/pages/pcp.tsx:173-179 | the server merges exactly the state's own weeks, comments and notes from the posted body, and always overwrites params |
| PcpHost.UneditedRoundTrip | client/src/pages/pcp.tsx:57-67 | saving the state the document was hydrated with re-posts each part unchanged |
| PcpHost.PcpPage.constructor | client/src/pages/pcp.tsx:13-17 | not ready, not saving, no resolver, no live coverage, nothing sent |
| PcpHost.PcpPage.HandleMessage | client/src/pages/pcp.tsx:77-100 | data without a type is ignored; ready sets only `iframeReady`; a full state settles the pending resolver once and empties the slot, or does nothing; coverage is kept only when present |
| PcpHost.PcpPage.RequestState | client/src/pages/pcp.tsx:106-157 | a direct read settles at once without a message and leaves the slot; otherwise the request takes the slot, one `PCP_GET_STATE` is sent and its timer starts |
| PcpHost.PcpPage.TimerFired | client/src/pages/pcp.tsx:145-155 | the timer tests the shared slot, not its own request: with any request in the slot, the slot is emptied and its own request settles (if still pending) with the retried read or the reload error; with the slot empty, nothing happens; a stranded save stays stranded (see Findings) |
| PcpHost.PcpPage.GuardedTimerFired | client/src/pages/pcp.tsx:145-155 | the corrected timer empties the slot only when it holds the timer's own request, and its own request is always settled once it fires |
| PcpHost.PcpPage.SaveStart | client/src/pages/pcp.tsx:159-165 | nothing unless admin, not guest and not saving; then `saving` is set and the capture starts; while a save is stranded, every click is refused |
| PcpHost.PcpPage.SaveFinish | client/src/pages/pcp.tsx:165-201 | an empty or rejected capture fails before posting; otherwise the body is posted and a failed reply fails with its message; `saving` is always cleared |
| PcpHost.PcpPage.Hydrate | client/src/pages/pcp.tsx:52-74 | once the document is ready, the hydration messages are sent; before that, nothing |
| PcpHost.StrandedSave | client/src/pages/pcp.tsx:143-160 | with the timers as written, a save completed within 3000 ms followed by a second save leaves the second capture pending with no timer left, `saving` set and the next click refused |
| PcpHost.GuardedSave | client/src/pages/pcp.tsx:143-200 | with the guarded timer, the same events settle the second capture by the document's answer, the second save completes and the next click starts a third |

## Findings

| source | as written | input that shows it | evidently intended | confidence | as-written member | corrected member |
|---|---|---|---|---|---|---|
| client/src/pages/pcp.tsx:145-147 | the 3000 ms timer tests and empties the shared resolver slot, whichever request holds it | save 1 answered by `PCP_FULL_STATE` and completed within 3000 ms; save 2 starts; timer 1 fires and empties the slot holding request 2; the answer to request 2 is dropped (pcp.tsx:87); timer 2 finds the slot empty; `saving` stays true and pcp.tsx:160 refuses every later save | a capture that the document never answers rejects within the timeout: the timer empties the slot only for its own request and settles that request if still pending | high, not executed | PcpHost.StrandedSave | PcpHost.PcpPage.GuardedTimerFired |
| server/routes.ts:197-199 | the weeks dictionary is a `{}` literal, so `weeks["__proto__"] = data` sets its prototype and stores no entry (the same holds at server/storage.ts:95 and 104) | save a week under the key `__proto__` through save-all or `POST /api/pcp/state/__proto__`, then `GET /api/pcp/full-state`: the stored week is missing from `weeks` | one weeks entry per stored state row, as with a dictionary created by `Object.create(null)` | medium, not executed | Routes.ProtoWeekLost | Table.CollectAll |

## Left out

- **Excluded code.**
  - Database driver, `fetch`, React rendering and react-query caching and invalidation, navigation, toasts and console output: infrastructure, and none of them is part of this model. Server replies and fetch failures are parameters.
  - The single-key routes (`GET`/`POST /api/pcp/state/:weekKey`, `GET /api/pcp/states`, `/api/pcp/comments/:weekKey`, `/api/pcp/params`, `GET`/`POST /api/pcp/coverage`, `/api/pcp/notes/:weekKey`) are thin wrappers around the storage methods modelled here and are not modelled themselves.
  - `seedAdmin` and the `pcp.html` file route are left out as well.
  - `scrypt`, `randomBytes`, `timingSafeEqual`: foreign crypto. The key derivation is an arbitrary deterministic function returning 64 bytes. Random bytes are a parameter. The constant-time property of the comparison is not modelled.
- **Time and dates.**
  - Time sources: the server's clock is an integer millisecond parameter. The local calendar date read by `getCurrentISOWeek` is a day count since 1970-01-01. The 3000 ms timer is an explicit event.
  - `Date` range and failure: the JavaScript `Date` range limit (±8.64e15 ms) and `Invalid Date` arithmetic are not modelled. Every day count is a valid date here.
  - IsoWeek.AddWeeksToDayKey, IsoWeek.NextWeekKey, IsoWeek.ParseDayKey and IsoWeek.AddZeroWeeks are stated only for weeks whose ISO year is outside 0..99. There the `Date.UTC` rebuilds (modelled in `UtcRebuild` and `UtcYear`) move the date into 1900 to 1999, so the source breaks the round trip and the week arithmetic. IsoWeek.AddWeeksRebuilt states what `addWeeksToISO` does, rebuild included, for a start week whose ISO year is outside 0..99.
  - IsoWeek.WeekNumberFacts, IsoWeek.MondayOfWeekOfDay, IsoWeek.SameKeySameWeek, IsoWeek.DistinctWeeks, IsoWeek.DifferentThursdayKeys, IsoWeek.WindowSuccessor and IsoWeek.AddWeeksRebuilt require the ISO years involved to lie outside 0..99. There the start of the year is read through `Date.UTC` (server/routes.ts:12 and 21) as a day of 1900 to 1999, and the week numbers of those years are left unstated.
  - IsoWeek.WindowKey, IsoWeek.WindowFirst, IsoWeek.WindowFacts and IsoWeek.ExpectedWeekKeys state their window facts only when today's ISO year is 100 or later. That excludes years 0 to 99 and every negative year too; the window there is left unstated.
- **Client capture and concurrency.**
  - `tryDirectAccess`: its probing of the iframe's window and DOM runs in a foreign context. Its result is the `direct` parameter, `null` when the read fails.
  - Concurrency: interleavings of concurrent requests and overlapping saves are not modelled. Each operation is one atomic step.
  - PcpHost.PcpPage.SaveFinish: an error message is carried as a value. The text conversion `new Error(x)` performs on a non-string message is not modelled, and neither is the toast's own fallback text.
  - JSON serialisation: the save body and the full-state reply are assumed to survive `JSON.stringify`/`JSON.parse` unchanged. Numbers are integers in `Values.Value`.
- **Server data handling.**
  - Storage.DatabaseStorage.SavePcpNotes stores the posted value as given. The `text as string` cast in save-all converts nothing, and the driver's coercion of non-string values into the text column, or its rejection of them, is not modelled.
  - `NOT NULL` columns: the driver's rejection of a `null` payload in a `jsonb NOT NULL` column is not modelled. Saving `null` stores it, and reading gives the fallback through `??`.
  - Routes.SaveAll: `Object.entries` order is not modelled. Its keys are distinct, so the merged result does not depend on it.
  - Routes.LoginAcceptedSpec: a username that is not a string matches no user, so it is answered 401. The driver's behaviour for such a parameter is not modelled.
  - AuthClient.Browser.Login stores the reply's token as a string. A login reply without a string `token` is not modelled.
